/** The second step of CalculateMD5Hash: the digest bytes written out as
    uppercase hexadecimal, two digits per byte (ToString("X2")).  The
    digest itself is an input. */
module HexDigest {
  import opened Results

  type Byte = b: int | 0 <= b < 256

  const HexDigits: string := "0123456789ABCDEF"

  /** The value of a hexadecimal digit, None for any other character. */
  function DigitValue(c: char): Option<int>
  {
    if '0' <= c <= '9' then Some(c as int - '0' as int)
    else if 'A' <= c <= 'F' then Some(c as int - 'A' as int + 10)
    else None
  }

  /** HexDigits is '0' .. '9' followed by 'A' .. 'F'. */
  lemma DigitCodes()
    ensures |HexDigits| == 16
    ensures forall k :: 0 <= k < 16 ==>
      HexDigits[k] as int == if k < 10 then '0' as int + k else 'A' as int + (k - 10)
  {
  }

  /** Digit k of HexDigits has value k. */
  lemma DigitValues()
    ensures |HexDigits| == 16
    ensures forall k :: 0 <= k < 16 ==> DigitValue(HexDigits[k]) == Some(k)
  {
    DigitCodes();
  }

  /** b.ToString("X2"): the high digit, then the low digit. */
  function ByteHex(b: Byte): string
  {
    [HexDigits[b / 16], HexDigits[b % 16]]
  }

  /** The hexadecimal text of a byte sequence, byte after byte. */
  function Hex(bytes: seq<Byte>): (s: string)
    ensures |s| == 2 * |bytes|
  {
    if bytes == [] then [] else Hex(bytes[..|bytes| - 1]) + ByteHex(bytes[|bytes| - 1])
  }

  /** The StringBuilder loop. */
  method HexString(hash: seq<Byte>) returns (s: string)
    ensures s == Hex(hash)
  {
    s := "";
    for i := 0 to |hash|
      invariant s == Hex(hash[..i])
    {
      assert hash[..i + 1][..i] == hash[..i];
      s := s + ByteHex(hash[i]);
    }
    assert hash[..|hash|] == hash;
  }

  /** The byte written as the two digits `hi` and `lo`, if they are digits. */
  function ByteOf(hi: char, lo: char): Option<Byte>
  {
    match (DigitValue(hi), DigitValue(lo))
    case (Some(h), Some(l)) => if 0 <= 16 * h + l < 256 then Some(16 * h + l) else None
    case _ => None
  }

  /** Reads hexadecimal text back, two digits per byte; None for text of
      odd length or with a character that is not an uppercase digit. */
  function Unhex(s: string): Option<seq<Byte>>
  {
    if |s| == 0 then Some([])
    else if |s| == 1 then None
    else
      match (Unhex(s[..|s| - 2]), ByteOf(s[|s| - 2], s[|s| - 1]))
      case (Some(init), Some(b)) => Some(init + [b])
      case _ => None
  }

  /** Every byte is written so that it can be read back. */
  lemma ByteHexRoundTrip(b: Byte)
    ensures ByteOf(ByteHex(b)[0], ByteHex(b)[1]) == Some(b)
  {
    DigitValues();
  }

  /** Reading the hexadecimal text gives back the bytes, so distinct
      digests never print alike. */
  lemma {:induction false} HexRoundTrip(bytes: seq<Byte>)
    ensures Unhex(Hex(bytes)) == Some(bytes)
  {
    if bytes != [] {
      var init, last := bytes[..|bytes| - 1], bytes[|bytes| - 1];
      var s := Hex(bytes);
      assert s[..|s| - 2] == Hex(init) && s[|s| - 2] == ByteHex(last)[0] && s[|s| - 1] == ByteHex(last)[1] by {
        assert s == Hex(init) + ByteHex(last);
      }
      assert Unhex(Hex(init)) == Some(init) by {
        HexRoundTrip(init);
      }
      ByteHexRoundTrip(last);
      assert init + [last] == bytes;
    }
  }

  /** The text uses only the sixteen uppercase digits. */
  lemma {:induction false} HexDigitsOnly(bytes: seq<Byte>)
    ensures forall i :: 0 <= i < |Hex(bytes)| ==> Hex(bytes)[i] in HexDigits
  {
    if bytes != [] {
      var init, last := bytes[..|bytes| - 1], bytes[|bytes| - 1];
      HexDigitsOnly(init);
      var s := Hex(bytes);
      assert s == Hex(init) + ByteHex(last);
      forall i | 0 <= i < |s| ensures s[i] in HexDigits {
        if i < |Hex(init)| {
          assert s[i] == Hex(init)[i];
        } else {
          assert s[i] == ByteHex(last)[i - |Hex(init)|];
        }
      }
    }
  }
}
