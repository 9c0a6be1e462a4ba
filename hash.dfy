/**
 * `hashString`: the SHA-256 digest of a string, written as lowercase hexadecimal.
 * The digest is abstract; the byte-to-hex encoding is modelled exactly as
 * `b.toString(16).padStart(2, '0')` joined in byte order.
 */
module Hash {
  import opened Crypto
  import opened Wrappers

  /** A lowercase hexadecimal digit, as `toString(16)` writes them. */
  predicate IsHexDigit(c: char)
  {
    '0' <= c <= '9' || 'a' <= c <= 'f'
  }

  function HexDigit(d: int): (c: char)
    requires 0 <= d < 16
    ensures IsHexDigit(c)
  {
    if d < 10 then ('0' as int + d) as char else ('a' as int + d - 10) as char
  }

  /** The value of a lowercase hexadecimal digit; `None` for any other character. */
  function DigitValue(c: char): (r: Option<int>)
    ensures r.Some? <==> IsHexDigit(c)
    ensures r.Some? ==> 0 <= r.value < 16 && HexDigit(r.value) == c
  {
    if '0' <= c <= '9' then Some(c as int - '0' as int)
    else if 'a' <= c <= 'f' then Some(c as int - 'a' as int + 10)
    else None
  }

  lemma DigitValueOfHexDigit(d: int)
    requires 0 <= d < 16
    ensures DigitValue(HexDigit(d)) == Some(d)
  {
  }

  /**
   * `Number.prototype.toString(16)` on a byte: lowercase digits without a leading zero, one
   * digit below 16 and two from 16 on, whose values read back as the byte.
   */
  function ToString16(b: byte): (s: string)
    ensures |s| == (if b < 16 then 1 else 2)
    ensures forall k :: 0 <= k < |s| ==> IsHexDigit(s[k])
    ensures s[0] != '0' || b == 0
    ensures |s| == 1 ==> DigitValue(s[0]) == Some(b as int)
    ensures |s| == 2 ==> DigitValue(s[0]) == Some(b as int / 16) && DigitValue(s[1]) == Some(b as int % 16)
  {
    if b < 16 then
      DigitValueOfHexDigit(b as int);
      [HexDigit(b as int)]
    else
      DigitValueOfHexDigit(b as int / 16);
      DigitValueOfHexDigit(b as int % 16);
      [HexDigit(b as int / 16), HexDigit(b as int % 16)]
  }

  /** `String.prototype.padStart(2, '0')`: zeros in front up to length 2; a longer string is kept. */
  function PadStart2(s: string): (r: string)
    ensures |r| == (if |s| < 2 then 2 else |s|)
    ensures r[|r| - |s|..] == s
    ensures forall k :: 0 <= k < |r| - |s| ==> r[k] == '0'
  {
    if |s| < 2 then seq(2 - |s|, _ => '0') + s else s
  }

  /** One byte becomes exactly two lowercase digits, high nibble first, whose values read back as the byte. */
  function ByteToHex(b: byte): (s: string)
    ensures |s| == 2
    ensures DigitValue(s[0]) == Some(b as int / 16) && DigitValue(s[1]) == Some(b as int % 16)
  {
    DigitValueOfHexDigit(b as int / 16);
    DigitValueOfHexDigit(b as int % 16);
    [HexDigit(b as int / 16), HexDigit(b as int % 16)]
  }

  /** The two digits are `b.toString(16).padStart(2, '0')`: the digits of the byte, a zero in front of a single one. */
  lemma ByteToHexPadded(b: byte)
    ensures ByteToHex(b) == PadStart2(ToString16(b))
  {
    var t := ToString16(b);
    if b < 16 {
      assert t == [HexDigit(b as int)] && HexDigit(0) == '0';
      assert PadStart2(t) == ['0'] + t;
    }
  }

  /** `Array.from(bytes).map(ByteToHex).join('')`. */
  function Hex(bytes: seq<byte>): (s: string)
    ensures |s| == 2 * |bytes|
  {
    if bytes == [] then "" else ByteToHex(bytes[0]) + Hex(bytes[1..])
  }

  /** Byte `i` lands at characters `2i` and `2i + 1`, in order. */
  lemma {:induction false} HexAt(bytes: seq<byte>, i: int)
    requires 0 <= i < |bytes|
    ensures Hex(bytes)[2 * i] == HexDigit(bytes[i] as int / 16)
    ensures Hex(bytes)[2 * i + 1] == HexDigit(bytes[i] as int % 16)
  {
    var s := Hex(bytes);
    assert s == ByteToHex(bytes[0]) + Hex(bytes[1..]);
    if i > 0 {
      HexAt(bytes[1..], i - 1);
      assert bytes[1..][i - 1] == bytes[i];
      assert s[2 * i] == Hex(bytes[1..])[2 * (i - 1)];
      assert s[2 * i + 1] == Hex(bytes[1..])[2 * (i - 1) + 1];
    }
  }

  /** Every character of the encoding is a lowercase hexadecimal digit. */
  lemma HexLowercase(bytes: seq<byte>)
    ensures forall k :: 0 <= k < |Hex(bytes)| ==> IsHexDigit(Hex(bytes)[k])
  {
    forall k | 0 <= k < |Hex(bytes)|
      ensures IsHexDigit(Hex(bytes)[k])
    {
      HexAt(bytes, k / 2);
    }
  }

  /** The inverse of `Hex`: pairs of lowercase digits back to bytes. */
  function Unhex(s: string): (r: Option<seq<byte>>)
    ensures r.Some? ==> 2 * |r.value| == |s|
  {
    if s == [] then Some([])
    else if |s| == 1 then None
    else
      var hi, lo, rest := DigitValue(s[0]), DigitValue(s[1]), Unhex(s[2..]);
      if hi.Some? && lo.Some? && rest.Some? then Some([(hi.value * 16 + lo.value) as byte] + rest.value)
      else None
  }

  /** Decoding one leading pair of digits. */
  lemma UnhexCons(hi: int, lo: int, t: string)
    requires 0 <= hi < 16 && 0 <= lo < 16
    ensures Unhex(t).Some? ==> Unhex([HexDigit(hi), HexDigit(lo)] + t) == Some([(hi * 16 + lo) as byte] + Unhex(t).value)
  {
    var s := [HexDigit(hi), HexDigit(lo)] + t;
    assert s[2..] == t;
    DigitValueOfHexDigit(hi);
    DigitValueOfHexDigit(lo);
  }

  /** Decoding the encoding recovers the digest bytes. */
  lemma {:induction false} UnhexHex(bytes: seq<byte>)
    ensures Unhex(Hex(bytes)) == Some(bytes)
  {
    if bytes != [] {
      var b := bytes[0];
      var hi, lo := b as int / 16, b as int % 16;
      assert Hex(bytes) == [HexDigit(hi), HexDigit(lo)] + Hex(bytes[1..]);
      UnhexHex(bytes[1..]);
      UnhexCons(hi, lo, Hex(bytes[1..]));
      assert (hi * 16 + lo) as byte == b;
      assert [b] + bytes[1..] == bytes;
    }
  }

  /** Distinct digests give distinct hex strings. */
  lemma HexInjective(a: seq<byte>, b: seq<byte>)
    requires Hex(a) == Hex(b)
    ensures a == b
  {
    UnhexHex(a);
    UnhexHex(b);
  }

  /** `hashString(data)`: the hex form of the abstract digest of `data`. */
  function HashString(p: Primitives, data: string): (h: string)
    ensures |h| == 2 * |p.digest(data)|
    ensures Unhex(h) == Some(p.digest(data))
  {
    UnhexHex(p.digest(data));
    Hex(p.digest(data))
  }

  /** With SHA-256 every hash string is 64 characters long. */
  lemma HashStringLength(p: Primitives, data: string)
    requires Sha256Sized(p)
    ensures |HashString(p, data)| == 64
  {
  }

  /** Two inputs hash to the same string exactly when their digests agree. */
  lemma HashStringEqual(p: Primitives, x: string, y: string)
    ensures HashString(p, x) == HashString(p, y) <==> p.digest(x) == p.digest(y)
  {
    if HashString(p, x) == HashString(p, y) {
      HexInjective(p.digest(x), p.digest(y));
    }
  }
}
