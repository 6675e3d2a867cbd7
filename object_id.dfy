/**
 * MongoDB's `_id`: a 12-byte ObjectId, here as the number its bytes spell
 * big-endian, and its `toString()`, which spells those bytes as 24 lowercase
 * hexadecimal digits.
 */
module ObjectIds {

  const HexDigits: string := "0123456789abcdef"

  function Pow16(k: nat): (r: nat)
    ensures r >= 1
  {
    if k == 0 then 1 else 16 * Pow16(k - 1)
  }

  /** 2^96, the number of distinct 12-byte values. */
  const ObjectIdBound: nat := Pow16(24)

  type ObjectId = n: nat | n < ObjectIdBound

  /** The last `k` hexadecimal digits of `n`, most significant first. */
  function Hex(n: nat, k: nat): (s: string)
    ensures |s| == k
    ensures forall i :: 0 <= i < |s| ==> s[i] in HexDigits
  {
    if k == 0 then "" else Hex(n / 16, k - 1) + [HexDigits[n % 16]]
  }

  /** The value of one hexadecimal digit (0 for any other character). */
  function DigitValue(c: char): (d: nat)
    ensures d < 16
  {
    if '0' <= c <= '9' then c as int - '0' as int
    else if 'a' <= c <= 'f' then c as int - 'a' as int + 10
    else 0
  }

  /** The number a string of hexadecimal digits spells. */
  function HexValue(s: string): nat
  {
    if s == [] then 0 else HexValue(s[..|s| - 1]) * 16 + DigitValue(s[|s| - 1])
  }

  /** `ObjectId.toString()`: 24 digits that read back as the ObjectId. */
  function ToString(oid: ObjectId): (s: string)
    ensures |s| == 24
    ensures HexValue(s) == oid
  {
    HexRoundTrip(oid, 24);
    Hex(oid, 24)
  }

  lemma DigitRoundTrip(d: nat)
    requires d < 16
    ensures DigitValue(HexDigits[d]) == d
  {
  }

  /** Reading the digits back gives the number, whenever it fits in `k` digits. */
  lemma {:induction false} HexRoundTrip(n: nat, k: nat)
    requires n < Pow16(k)
    ensures HexValue(Hex(n, k)) == n
  {
    if k > 0 {
      var s := Hex(n, k);
      assert s[..|s| - 1] == Hex(n / 16, k - 1);
      HexRoundTrip(n / 16, k - 1);
      DigitRoundTrip(n % 16);
    }
  }

  /** `toString()` is injective: distinct ObjectIds never share a string. */
  lemma ToStringInjective(a: ObjectId, b: ObjectId)
    ensures ToString(a) == ToString(b) ==> a == b
  {
  }
}
