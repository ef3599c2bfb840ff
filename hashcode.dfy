/**
 * The djb2 string hash used by the chained hash map: an unsigned 32-bit
 * accumulator seeded with 5381, multiplied by 33 and increased by each
 * character, reduced modulo 0x7FFFFFFF at the end.
 */
module HashCode {

  newtype byte = x: int | 0 <= x < 256

  const HASH_SEED: int := 5381
  const HASH_MULTIPLIER: int := 33
  /** 2^32: the accumulator is an `unsigned`, so every step wraps modulo this. */
  const UINT_RANGE: int := 0x1_0000_0000
  /** `unsigned(-1) >> 1`: all bits of an unsigned except the top one. */
  const HASH_MASK: int := (UINT_RANGE - 1) / 2

  /** The value a `char` contributes: it is signed, so bytes from 128 up are negative. */
  function CharValue(b: byte): (c: int)
    ensures -128 <= c < 128
    ensures c % 256 == b as int
    ensures c < 0 <==> b >= 128
  {
    if b < 128 then b as int else b as int - 256
  }

  /** One round of the loop: `hash = HASH_MULTIPLIER * hash + str[i]` on unsigned. */
  function Step(acc: int, b: byte): int {
    (HASH_MULTIPLIER * acc + CharValue(b)) % UINT_RANGE
  }

  /** The accumulator after reading all of `s`, as a left fold over its bytes. */
  function Acc(s: seq<byte>): (acc: int)
    ensures 0 <= acc < UINT_RANGE
  {
    if s == [] then HASH_SEED else Step(Acc(s[..|s| - 1]), s[|s| - 1])
  }

  /** The hash code of a rendered key. */
  function MyHashCode(s: seq<byte>): int {
    Acc(s) % HASH_MASK
  }

  /** The loop of `myhashCode`, proved to compute `MyHashCode`. */
  method HashLoop(str: seq<byte>) returns (code: int)
    ensures code == MyHashCode(str)
    ensures 0 <= code < HASH_MASK
  {
    var hash := HASH_SEED;
    var i := 0;
    while i < |str|
      invariant 0 <= i <= |str|
      invariant hash == Acc(str[..i])
    {
      assert str[..i + 1][..i] == str[..i];
      hash := (HASH_MULTIPLIER * hash + CharValue(str[i])) % UINT_RANGE;
      i := i + 1;
    }
    assert str[..i] == str;
    code := hash % HASH_MASK;
  }

  /** The empty string hashes to the seed. */
  lemma EmptyHashesToSeed()
    ensures MyHashCode([]) == HASH_SEED
  {
    assert Acc([]) == HASH_SEED;
    assert HASH_MASK == 0x7FFF_FFFF;
  }

  /** Appending one byte takes one step of the fold. */
  lemma {:induction false} AccSnoc(s: seq<byte>, b: byte)
    ensures Acc(s + [b]) == (HASH_MULTIPLIER * Acc(s) + CharValue(b)) % UINT_RANGE
  {
    assert (s + [b])[..|s + [b]| - 1] == s;
  }

  /** Two hand-computed values: "a" is 5381*33 + 97, "b" one more. */
  lemma SingleLetterCodes()
    ensures MyHashCode([97]) == 177670
    ensures MyHashCode([98]) == 177671
    ensures MyHashCode([99]) == 177672
  {
    SingleLetterCode(97);
    SingleLetterCode(98);
    SingleLetterCode(99);
  }

  lemma SingleLetterCode(b: byte)
    requires b < 128
    ensures MyHashCode([b]) == 177573 + b as int
  {
    assert [b][..0] == [];
    assert Acc([b]) == Step(HASH_SEED, b);
    assert CharValue(b) == b as int;
    var x := HASH_MULTIPLIER * HASH_SEED + b as int;
    assert x == 177573 + b as int;
    assert 0 <= x < UINT_RANGE;
    assert Step(HASH_SEED, b) == x;
    assert HASH_MASK == 0x7FFF_FFFF;
    assert 0 <= x < HASH_MASK;
  }
}
