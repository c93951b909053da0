/** 32-bit integers as text: Int32.Parse with the default number style
    (optional white space around an optional sign and decimal digits),
    Int32.ToString, and the wrap-around of unchecked Int32 arithmetic. */
module Int32Text {
  import opened Results

  const MinInt32: int := -0x8000_0000
  const MaxInt32: int := 0x7FFF_FFFF
  const Modulus: int := 0x1_0000_0000

  predicate InInt32(v: int) {
    MinInt32 <= v <= MaxInt32
  }

  /** The value unchecked Int32 arithmetic leaves for the exact result `v`. */
  function Wrap32(v: int): (r: int)
    ensures InInt32(r)
    ensures (r - v) % Modulus == 0
    ensures InInt32(v) ==> r == v
  {
    (v - MinInt32) % Modulus + MinInt32
  }

  /** The white space NumberStyles.AllowLeadingWhite and AllowTrailingWhite
      accept: U+0009 to U+000D and U+0020. */
  predicate IsWhite(c: char) {
    c == ' ' || '\t' <= c <= '\r'
  }

  predicate IsDigit(c: char) {
    '0' <= c <= '9'
  }

  predicate AllDigits(s: string) {
    forall i :: 0 <= i < |s| ==> IsDigit(s[i])
  }

  /** The white space int.Parse skips in front of the number. */
  function SkipLeadingWhite(s: string): string
  {
    if |s| > 0 && IsWhite(s[0]) then SkipLeadingWhite(s[1..]) else s
  }

  /** The white space int.Parse skips after the number. */
  function SkipTrailingWhite(s: string): string
  {
    if |s| > 0 && IsWhite(s[|s| - 1]) then SkipTrailingWhite(s[..|s| - 1]) else s
  }

  /** The '\0' characters int.Parse tolerates at the very end of its input,
      after the trailing white space. */
  function DropTrailingNuls(s: string): string
  {
    if |s| > 0 && s[|s| - 1] == '\0' then DropTrailingNuls(s[..|s| - 1]) else s
  }

  /** The leading skip removes exactly the white space in front: what
      remains is a suffix that does not start with white space. */
  lemma {:induction false} SkipLeadingWhiteSpec(s: string)
    ensures |SkipLeadingWhite(s)| <= |s| && SkipLeadingWhite(s) == s[|s| - |SkipLeadingWhite(s)|..]
    ensures SkipLeadingWhite(s) == [] || !IsWhite(SkipLeadingWhite(s)[0])
    ensures forall i :: 0 <= i < |s| - |SkipLeadingWhite(s)| ==> IsWhite(s[i])
  {
    if |s| > 0 && IsWhite(s[0]) {
      SkipLeadingWhiteSpec(s[1..]);
      assert forall i :: 1 <= i < |s| - |SkipLeadingWhite(s)| ==> s[i] == s[1..][i - 1];
    }
  }

  /** The trailing skip removes exactly the white space at the end. */
  lemma {:induction false} SkipTrailingWhiteSpec(s: string)
    ensures |SkipTrailingWhite(s)| <= |s| && SkipTrailingWhite(s) == s[..|SkipTrailingWhite(s)|]
    ensures SkipTrailingWhite(s) == [] || !IsWhite(SkipTrailingWhite(s)[|SkipTrailingWhite(s)| - 1])
    ensures forall i :: |SkipTrailingWhite(s)| <= i < |s| ==> IsWhite(s[i])
  {
    if |s| > 0 && IsWhite(s[|s| - 1]) {
      SkipTrailingWhiteSpec(s[..|s| - 1]);
    }
  }

  /** White space in front of text that does not start with white space is skipped. */
  lemma {:induction false} SkipLeadingOf(w: string, x: string)
    requires forall i :: 0 <= i < |w| ==> IsWhite(w[i])
    requires x == [] || !IsWhite(x[0])
    ensures SkipLeadingWhite(w + x) == x
  {
    if w == [] {
      assert w + x == x;
    } else {
      assert (w + x)[1..] == w[1..] + x;
      SkipLeadingOf(w[1..], x);
    }
  }

  /** White space after text that does not end with white space is skipped. */
  lemma {:induction false} SkipTrailingOf(x: string, w: string)
    requires x == [] || !IsWhite(x[|x| - 1])
    requires forall i :: 0 <= i < |w| ==> IsWhite(w[i])
    ensures SkipTrailingWhite(x + w) == x
  {
    if w == [] {
      assert x + w == x;
    } else {
      assert (x + w)[..|x + w| - 1] == x + w[..|w| - 1];
      SkipTrailingOf(x, w[..|w| - 1]);
    }
  }

  /** Trailing '\0' characters after text that does not end with one are dropped. */
  lemma {:induction false} DropNulsOf(x: string, nuls: string)
    requires x == [] || x[|x| - 1] != '\0'
    requires forall i :: 0 <= i < |nuls| ==> nuls[i] == '\0'
    ensures DropTrailingNuls(x + nuls) == x
  {
    if nuls == [] {
      assert x + nuls == x;
    } else {
      assert (x + nuls)[..|x + nuls| - 1] == x + nuls[..|nuls| - 1];
      DropNulsOf(x, nuls[..|nuls| - 1]);
    }
  }

  function DigitValue(c: char): nat
    requires IsDigit(c)
  {
    c as int - '0' as int
  }

  function DigitChar(d: nat): (c: char)
    requires d < 10
    ensures IsDigit(c) && DigitValue(c) == d
  {
    ('0' as int + d) as char
  }

  /** The value of a decimal digit string, most significant digit first. */
  function DigitsValue(s: string): nat
    requires AllDigits(s)
  {
    if s == [] then 0 else 10 * DigitsValue(s[..|s| - 1]) + DigitValue(s[|s| - 1])
  }

  /** What int.Parse reads between the white space: an optional sign and
      decimal digits. */
  function ParseSigned(t: string): (r: Result<int>)
    ensures r.Ok? ==> InInt32(r.value)
    ensures r.Err? ==> r.error == Format || r.error == Overflow
  {
    var signed := |t| > 0 && (t[0] == '-' || t[0] == '+');
    var body := if signed then t[1..] else t;
    if body == [] || !AllDigits(body) then Err(Format)
    else
      var magnitude: int := DigitsValue(body);
      var v := if signed && t[0] == '-' then -magnitude else magnitude;
      if InInt32(v) then Ok(v) else Err(Overflow)
  }

  /** Int32.Parse(s) with NumberStyles.Integer and the signs `-` and `+`:
      white space, an optional sign, decimal digits, white space, and any
      number of '\0' characters at the very end. */
  function ParseInt32(s: string): (r: Result<int>)
    ensures r.Ok? ==> InInt32(r.value)
    ensures r.Err? ==> r.error == Format || r.error == Overflow
  {
    ParseSigned(SkipTrailingWhite(SkipLeadingWhite(DropTrailingNuls(s))))
  }

  /** The signed value of a sign and a digit string. */
  function SignedValue(sign: string, digits: string): int
    requires AllDigits(digits)
  {
    var magnitude: int := DigitsValue(digits);
    if sign == "-" then -magnitude else magnitude
  }

  /** A sign and digits read as their signed value, or overflow. */
  lemma ParseSignedDigits(sign: string, digits: string)
    requires sign == "" || sign == "+" || sign == "-"
    requires |digits| > 0 && AllDigits(digits)
    ensures ParseSigned(sign + digits) ==
      if InInt32(SignedValue(sign, digits)) then Ok(SignedValue(sign, digits)) else Err(Overflow)
  {
    if sign == "" {
      assert sign + digits == digits;
    } else {
      assert (sign + digits)[1..] == digits;
    }
  }

  /** The white space and the trailing '\0' characters around a sign and
      digits are all that int.Parse skips. */
  lemma SkipAround(lead: string, number: string, trail: string, nuls: string)
    requires forall i :: 0 <= i < |lead| ==> IsWhite(lead[i])
    requires |number| > 0 && !IsWhite(number[0]) && !IsWhite(number[|number| - 1]) && number[|number| - 1] != '\0'
    requires forall i :: 0 <= i < |trail| ==> IsWhite(trail[i])
    requires forall i :: 0 <= i < |nuls| ==> nuls[i] == '\0'
    ensures SkipTrailingWhite(SkipLeadingWhite(DropTrailingNuls(lead + number + trail + nuls))) == number
  {
    var rest := number + trail;
    var text := lead + rest;
    assert lead + number + trail + nuls == text + nuls;
    assert DropTrailingNuls(text + nuls) == text by {
      assert text[|text| - 1] == rest[|rest| - 1];
      assert rest[|rest| - 1] == if trail == [] then number[|number| - 1] else trail[|trail| - 1];
      DropNulsOf(text, nuls);
    }
    assert SkipLeadingWhite(text) == rest by {
      assert rest[0] == number[0];
      SkipLeadingOf(lead, rest);
    }
    assert SkipTrailingWhite(rest) == number by {
      SkipTrailingOf(number, trail);
    }
  }

  /** Text of the accepted form parses to its signed value, or overflows:
      leading zeros, a `+` sign, surrounding white space and trailing
      '\0' characters change nothing. */
  lemma ParseWellFormed(lead: string, sign: string, digits: string, trail: string, nuls: string)
    requires forall i :: 0 <= i < |lead| ==> IsWhite(lead[i])
    requires sign == "" || sign == "+" || sign == "-"
    requires |digits| > 0 && AllDigits(digits)
    requires forall i :: 0 <= i < |trail| ==> IsWhite(trail[i])
    requires forall i :: 0 <= i < |nuls| ==> nuls[i] == '\0'
    ensures ParseInt32(lead + sign + digits + trail + nuls) ==
      if InInt32(SignedValue(sign, digits)) then Ok(SignedValue(sign, digits)) else Err(Overflow)
  {
    var number := sign + digits;
    assert number[0] == if sign == "" then digits[0] else sign[0];
    assert number[|number| - 1] == digits[|digits| - 1];
    assert lead + sign + digits + trail + nuls == lead + number + trail + nuls;
    SkipAround(lead, number, trail, nuls);
    ParseSignedDigits(sign, digits);
  }

  /** A sign and digits with nothing around them. */
  lemma ParseNumber(sign: string, digits: string)
    requires sign == "" || sign == "+" || sign == "-"
    requires |digits| > 0 && AllDigits(digits)
    ensures ParseInt32(sign + digits) ==
      if InInt32(SignedValue(sign, digits)) then Ok(SignedValue(sign, digits)) else Err(Overflow)
  {
    assert "" + sign + digits + "" + "" == sign + digits;
    ParseWellFormed("", sign, digits, "", "");
  }

  /** The decimal digits of `n`, without leading zeros. */
  function NatDigits(n: nat): (s: string)
    ensures |s| > 0 && AllDigits(s)
    ensures DigitsValue(s) == n
  {
    if n < 10 then [DigitChar(n)]
    else
      var s := NatDigits(n / 10) + [DigitChar(n % 10)];
      assert s[..|s| - 1] == NatDigits(n / 10);
      s
  }

  /** Int32.ToString(): an optional minus sign and the decimal digits. */
  function Int32ToString(n: int): string
  {
    if n < 0 then "-" + NatDigits(-n) else NatDigits(n)
  }

  /** A printed number consists of a minus sign and decimal digits only. */
  lemma PrintedChars(n: int)
    ensures forall i :: 0 <= i < |Int32ToString(n)| ==>
      Int32ToString(n)[i] == '-' || IsDigit(Int32ToString(n)[i])
  {
    var digits := NatDigits(if n < 0 then -n else n);
    assert forall i :: 0 <= i < |digits| ==> IsDigit(digits[i]);
  }

  /** Parsing gives back every Int32 that ToString printed. */
  lemma ParsePrinted(n: int)
    requires InInt32(n)
    ensures ParseInt32(Int32ToString(n)) == Ok(n)
  {
    if n < 0 {
      ParseNumber("-", NatDigits(-n));
    } else {
      ParseNumber("", NatDigits(n));
      assert "" + NatDigits(n) == Int32ToString(n);
    }
  }

  /** Text that is empty after skipping white space is not a number. */
  lemma ParseBlank(s: string)
    requires forall i :: 0 <= i < |s| ==> IsWhite(s[i])
    ensures ParseInt32(s) == Err(Format)
  {
    assert s + "" == s && "" + s == s;
    DropNulsOf(s, "");
    SkipLeadingOf(s, "");
  }
}
