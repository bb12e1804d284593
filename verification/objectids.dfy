/** BSON ObjectIds and their string form: `str()` of an ObjectId is its
    twelve bytes written as 24 lower-case hexadecimal digits. */
module ObjectIds {

  /** A byte of an ObjectId. */
  newtype Byte = x: int | 0 <= x < 256

  /** A BSON ObjectId: twelve bytes. */
  type ObjectId = b: seq<Byte> | |b| == 12 witness [0, 0, 0, 0, 0, 0, 0, 0, 0, 0, 0, 0]

  /** A lower-case hexadecimal digit. */
  predicate IsHexDigit(c: char)
  {
    '0' <= c <= '9' || 'a' <= c <= 'f'
  }

  /** Lower-case hexadecimal text. */
  predicate IsLowerHex(s: string)
  {
    forall k :: 0 <= k < |s| ==> IsHexDigit(s[k])
  }

  /** The digit for a value below 16. */
  function Digit(n: nat): (c: char)
    requires n < 16
    ensures IsHexDigit(c)
  {
    if n < 10 then ('0' as int + n) as char else ('a' as int + n - 10) as char
  }

  /** The value of a hexadecimal digit; it inverts `Digit`. */
  function DigitValue(c: char): (n: nat)
    requires IsHexDigit(c)
    ensures n < 16 && Digit(n) == c
  {
    if c <= '9' then c as int - '0' as int else c as int - 'a' as int + 10
  }

  /** Bytes written as two lower-case hexadecimal digits each, high nibble first. */
  function Hex(bytes: seq<Byte>): (r: string)
    ensures |r| == 2 * |bytes|
    ensures IsLowerHex(r)
    ensures forall k :: 0 <= k < |bytes| ==>
              r[2 * k] == Digit(bytes[k] as int / 16) && r[2 * k + 1] == Digit(bytes[k] as int % 16)
  {
    if |bytes| == 0 then ""
    else
      var rest := Hex(bytes[1..]);
      var r := [Digit(bytes[0] as int / 16), Digit(bytes[0] as int % 16)] + rest;
      assert forall k | 1 <= k < |bytes| ::
               r[2 * k] == Digit(bytes[k] as int / 16) && r[2 * k + 1] == Digit(bytes[k] as int % 16) by {
        forall k | 1 <= k < |bytes|
          ensures r[2 * k] == Digit(bytes[k] as int / 16) && r[2 * k + 1] == Digit(bytes[k] as int % 16)
        {
          assert bytes[1..][k - 1] == bytes[k];
          assert r[2 * k] == rest[2 * (k - 1)] && r[2 * k + 1] == rest[2 * (k - 1) + 1];
        }
      }
      r
  }

  /** The bytes 0x50 0x7f are written `507f`. */
  lemma HexExample()
    ensures Hex([0x50, 0x7f]) == "507f"
  {
    var h := Hex([0x50, 0x7f]);
    assert h[0] == Digit(5) && h[1] == Digit(0) && h[2] == Digit(7) && h[3] == Digit(15);
  }

  /** Each digit reads back as the value it was written for. */
  lemma DigitValueOfDigit(n: nat)
    requires n < 16
    ensures DigitValue(Digit(n)) == n
  {
  }

  /** A byte is determined by its two digits. */
  lemma DigitsDetermineByte(a: Byte, b: Byte)
    requires Digit(a as int / 16) == Digit(b as int / 16)
    requires Digit(a as int % 16) == Digit(b as int % 16)
    ensures a == b
  {
    DigitValueOfDigit(a as int / 16);
    DigitValueOfDigit(b as int / 16);
    DigitValueOfDigit(a as int % 16);
    DigitValueOfDigit(b as int % 16);
  }

  /** Distinct byte strings have distinct hexadecimal forms. */
  lemma {:induction false} HexInjective(a: seq<Byte>, b: seq<Byte>)
    requires Hex(a) == Hex(b)
    ensures a == b
    decreases |a|
  {
    if |a| > 0 {
      var ha, hb := Hex(a), Hex(b);
      assert ha[0] == hb[0] && ha[1] == hb[1];
      DigitsDetermineByte(a[0], b[0]);
      assert ha[2..] == Hex(a[1..]) && hb[2..] == Hex(b[1..]);
      HexInjective(a[1..], b[1..]);
      assert a == [a[0]] + a[1..] && b == [b[0]] + b[1..];
    }
  }
}
