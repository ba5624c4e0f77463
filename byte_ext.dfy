// Bit helpers on a single byte: the bit test, the LSB-first binary string
// and the population count used by the jumper generator.

module ByteExt {

  type byte = bv8

  /** A number below 256 survives the cast to a byte and back. */
  lemma ByteOfInt(c: nat)
    requires c < 256
    ensures (c as byte) as int == c
  {
  }

  /** True when bit `bitNum` (0 = least significant) of `b` is set. */
  function HasBit(b: byte, bitNum: nat): bool
    requires bitNum < 8
  {
    b & (1 << bitNum) != 0
  }

  /** The character ToBinString writes for bit `i`. */
  function Digit(b: byte, i: nat): char
    requires i < 8
  {
    if HasBit(b, i) then '1' else '0'
  }

  /** The string of the first `n` bits of `b`, least significant bit first. */
  function BinPrefix(b: byte, n: nat): (s: string)
    requires n <= 8
    ensures |s| == n
    ensures forall i :: 0 <= i < n ==> s[i] == Digit(b, i)
  {
    if n == 0 then "" else BinPrefix(b, n - 1) + [Digit(b, n - 1)]
  }

  /** The value of ToBinString: eight characters, character i is '1' iff bit i is set. */
  function BinString(b: byte): (s: string)
    ensures |s| == 8
    ensures forall i :: 0 <= i < 8 ==> (s[i] == '1' <==> HasBit(b, i))
    ensures forall i :: 0 <= i < 8 ==> (s[i] == '0' <==> !HasBit(b, i))
  {
    BinPrefix(b, 8)
  }

  /** Builds the binary string bit by bit, as the source's loop does. */
  method ToBinString(b: byte) returns (s: string)
    ensures s == BinString(b)
    ensures |s| == 8 && forall i :: 0 <= i < 8 ==> s[i] in {'0', '1'}
  {
    s := "";
    for bitNum := 0 to 8
      invariant |s| == bitNum
      invariant forall i :: 0 <= i < bitNum ==> s[i] == Digit(b, i)
    {
      s := s + (if HasBit(b, bitNum) then "1" else "0");
    }
  }

  /** Number of set bits among positions lo..7. */
  function BitsFrom(b: byte, lo: nat): (c: nat)
    requires lo <= 8
    ensures c <= 8 - lo
    decreases 8 - lo
  {
    if lo == 8 then 0 else (if HasBit(b, lo) then 1 else 0) + BitsFrom(b, lo + 1)
  }

  /** Population count of a byte. */
  function PopCount(b: byte): (c: nat)
    ensures c <= 8
  {
    BitsFrom(b, 0)
  }

  /** Counts the set bits scanning from bit 7 down to bit 0, as the source does. */
  method CountBits(b: byte) returns (c: nat)
    ensures c == PopCount(b)
    ensures 0 <= c <= 8
  {
    c := 0;
    var bitNum := 7;
    while bitNum >= 0
      invariant -1 <= bitNum <= 7
      invariant c == BitsFrom(b, bitNum + 1)
    {
      if HasBit(b, bitNum) {
        c := c + 1;
      }
      bitNum := bitNum - 1;
    }
  }

  /** Number of '1' characters in a string. */
  function Ones(s: string): nat
  {
    if s == [] then 0 else Ones(s[..|s| - 1]) + (if s[|s| - 1] == '1' then 1 else 0)
  }

  lemma {:induction false} OnesOfPrefix(b: byte, n: nat)
    requires n <= 8
    ensures Ones(BinPrefix(b, n)) + BitsFrom(b, n) == PopCount(b)
    decreases n
  {
    if n > 0 {
      var s := BinPrefix(b, n);
      assert s[..n - 1] == BinPrefix(b, n - 1);
      OnesOfPrefix(b, n - 1);
    }
  }

  /** CountBits agrees with the number of '1' characters ToBinString prints. */
  lemma CountBitsMatchesBinString(b: byte)
    ensures PopCount(b) == Ones(BinString(b))
  {
    OnesOfPrefix(b, 8);
  }

  /** Distinct bytes print as distinct strings. */
  lemma BinStringInjective(a: byte, b: byte)
    requires BinString(a) == BinString(b)
    ensures a == b
  {
    var sa, sb := BinString(a), BinString(b);
    assert sa[0] == sb[0] && sa[1] == sb[1] && sa[2] == sb[2] && sa[3] == sb[3];
    assert sa[4] == sb[4] && sa[5] == sb[5] && sa[6] == sb[6] && sa[7] == sb[7];
    assert a & 1 == b & 1 && a & 2 == b & 2 && a & 4 == b & 4 && a & 8 == b & 8;
    assert a & 16 == b & 16 && a & 32 == b & 32 && a & 64 == b & 64 && a & 128 == b & 128;
  }
}
