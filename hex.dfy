/** `bin2hex(random_bytes(8))`, the identifier a new reservation receives. */
module Hex {

  newtype Byte = x: int | 0 <= x < 256

  predicate IsHexChar(c: char) {
    '0' <= c <= '9' || 'a' <= c <= 'f'
  }

  /** The lower-case hex digit of a nibble. */
  function HexDigit(n: nat): (c: char)
    requires n < 16
    ensures IsHexChar(c)
  {
    if n < 10 then ('0' as int + n) as char else ('a' as int + n - 10) as char
  }

  function NibbleValue(c: char): (n: nat)
    requires IsHexChar(c)
    ensures n < 16 && HexDigit(n) == c
  {
    if '0' <= c <= '9' then c as int - '0' as int else c as int - 'a' as int + 10
  }

  /** `bin2hex($bytes)`: two lower-case hex digits per byte, high nibble first. */
  function BinToHex(bytes: seq<Byte>): (r: string)
    ensures |r| == 2 * |bytes|
    ensures forall i :: 0 <= i < |r| ==> IsHexChar(r[i])
  {
    if bytes == [] then ""
    else [HexDigit(bytes[0] as int / 16), HexDigit(bytes[0] as int % 16)] + BinToHex(bytes[1..])
  }

  /** `hex2bin($s)` for an even-length string of hex digits. */
  function HexToBin(s: string): (bytes: seq<Byte>)
    requires |s| % 2 == 0
    requires forall i :: 0 <= i < |s| ==> IsHexChar(s[i])
    ensures |bytes| == |s| / 2
  {
    if s == [] then []
    else [(16 * NibbleValue(s[0]) + NibbleValue(s[1])) as Byte] + HexToBin(s[2..])
  }

  /** The hex text loses nothing: decoding it gives back the random bytes. */
  lemma {:induction false} HexRoundTrip(bytes: seq<Byte>)
    ensures HexToBin(BinToHex(bytes)) == bytes
  {
    if bytes != [] {
      var s := BinToHex(bytes);
      var hi, lo := bytes[0] as int / 16, bytes[0] as int % 16;
      assert s[0] == HexDigit(hi) && s[1] == HexDigit(lo);
      assert s[2..] == BinToHex(bytes[1..]);
      HexRoundTrip(bytes[1..]);
      assert NibbleValue(s[0]) == hi;
      assert NibbleValue(s[1]) == lo;
      assert 16 * hi + lo == bytes[0] as int;
    }
  }

  /** Distinct random draws give distinct identifiers. */
  lemma BinToHexInjective(a: seq<Byte>, b: seq<Byte>)
    requires BinToHex(a) == BinToHex(b)
    ensures a == b
  {
    HexRoundTrip(a);
    HexRoundTrip(b);
  }
}
