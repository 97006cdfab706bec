/** Bytes, C character buffers and the decimal text the firmware prints and parses. */
module Text {

  /** A value that may be absent. */
  datatype Option<T> = None | Some(value: T)

  /** One octet, as `uint8_t` holds it. */
  type Byte = b: int | 0 <= b < 256

  const TWO_32: int := 0x1_0000_0000

  /** `size_t` / `uint32_t` arithmetic on the ESP32: reduction modulo 2^32. */
  function ToU32(x: int): (r: int)
    ensures 0 <= r < TWO_32
    ensures (r - x) % TWO_32 == 0
  {
    x % TWO_32
  }

  /** Reducing an intermediate sum modulo 2^32 does not change the final one. */
  lemma ToU32Add(a: int, b: int)
    ensures ToU32(ToU32(a) + b) == ToU32(a + b)
  {
    var q := a / TWO_32;
    assert a == q * TWO_32 + ToU32(a);
    assert a + b == (ToU32(a) + b) + q * TWO_32;
  }

  /** A 32-bit `int` reading of a value: two's-complement wrap-around. */
  function ToI32(x: int): (r: int)
    ensures -0x8000_0000 <= r < 0x8000_0000
    ensures (r - x) % TWO_32 == 0
    ensures -0x8000_0000 <= x < 0x8000_0000 ==> r == x
  {
    var u := x % TWO_32;
    if u < 0x8000_0000 then u else u - TWO_32
  }

  /** A sequence of `k` NUL characters. */
  function Nuls(k: nat): (r: string)
    ensures |r| == k && forall i :: 0 <= i < k ==> r[i] == '\0'
  {
    seq(k, _ => '\0')
  }

  /** The first `n` characters of `s`, or all of `s` when it is shorter. */
  function Prefix(s: string, n: nat): (r: string)
    ensures |r| <= n && |r| <= |s| && r == s[..|r|]
    ensures |s| <= n ==> r == s
    ensures n <= |s| ==> |r| == n
  {
    if |s| <= n then s else s[..n]
  }

  /** The C string a character buffer holds: everything before its first NUL. */
  function {:induction false} CStr(s: string): (r: string)
    ensures |r| <= |s| && r == s[..|r|]
    ensures forall i :: 0 <= i < |r| ==> r[i] != '\0'
    ensures |r| < |s| ==> s[|r|] == '\0'
  {
    if s == [] || s[0] == '\0' then [] else [s[0]] + CStr(s[1..])
  }

  /** A string without NUL is its own C string. */
  lemma {:induction false} CStrOfPlain(s: string)
    requires forall i :: 0 <= i < |s| ==> s[i] != '\0'
    ensures CStr(s) == s
  {
    if s != [] {
      CStrOfPlain(s[1..]);
    }
  }

  /** A string without NUL followed by NUL padding is read back as that string. */
  lemma {:induction false} CStrOfPadded(s: string, k: nat)
    requires forall i :: 0 <= i < |s| ==> s[i] != '\0'
    ensures CStr(s + Nuls(k)) == s
  {
    if s == [] {
      assert s + Nuls(k) == Nuls(k);
    } else {
      assert (s + Nuls(k))[1..] == s[1..] + Nuls(k);
      CStrOfPadded(s[1..], k);
    }
  }

  /** A terminating NUL after a buffer does not change the C string it holds. */
  lemma {:induction false} CStrTerminated(s: string)
    ensures CStr(s + "\0") == CStr(s)
  {
    if s != [] && s[0] != '\0' {
      assert (s + "\0")[1..] == s[1..] + "\0";
      CStrTerminated(s[1..]);
    }
  }

  /** `strncpy(dst, src, n)`: at most `n` characters of the C string `src`, the rest of `dst` filled with NUL. */
  function StrNCopy(src: string, n: nat): (r: string)
    ensures |r| == n
    ensures CStr(r) == Prefix(CStr(src), n)
    ensures r[..|Prefix(CStr(src), n)|] == Prefix(CStr(src), n)
    ensures r[|Prefix(CStr(src), n)|..] == Nuls(n - |Prefix(CStr(src), n)|)
  {
    var body := Prefix(CStr(src), n);
    CStrOfPadded(body, n - |body|);
    body + Nuls(n - |body|)
  }

  predicate IsDigit(c: char) { '0' <= c <= '9' }

  predicate AllDigits(s: string) { forall i :: 0 <= i < |s| ==> IsDigit(s[i]) }

  function DigitChar(d: nat): (c: char)
    requires d < 10
    ensures IsDigit(c) && c as int - '0' as int == d
  {
    ('0' as int + d) as char
  }

  /** The decimal digits of `n` (printf `%u` / `%d` of a non-negative value), no leading zeros. */
  function {:induction false} Decimal(n: nat): (r: string)
    ensures 1 <= |r| && AllDigits(r)
    ensures n < 10 <==> |r| == 1
    ensures |r| > 1 ==> r[0] != '0'
  {
    if n < 10 then [DigitChar(n)] else Decimal(n / 10) + [DigitChar(n % 10)]
  }

  /** The value a string of decimal digits denotes. */
  function {:induction false} DigitsValue(s: string): (v: nat)
    requires AllDigits(s)
  {
    if s == [] then 0 else DigitsValue(s[..|s| - 1]) * 10 + (s[|s| - 1] as int - '0' as int)
  }

  lemma {:induction false} DecimalValue(n: nat)
    ensures DigitsValue(Decimal(n)) == n
  {
    if n >= 10 {
      var r := Decimal(n);
      assert r[..|r| - 1] == Decimal(n / 10);
      DecimalValue(n / 10);
    }
  }

  /** A value below 10^w has at most `w` digits. */
  lemma {:induction false} DecimalWidth(n: nat, w: nat, p: nat)
    requires p == Pow10(w) && n < p && w >= 1
    ensures |Decimal(n)| <= w
  {
    if n >= 10 {
      DecimalWidth(n / 10, w - 1, Pow10(w - 1));
    }
  }

  function Pow10(w: nat): (p: nat)
    ensures p >= 1
  {
    if w == 0 then 1 else 10 * Pow10(w - 1)
  }

  /** printf `%0wd` of a non-negative value: left-padded with '0' to at least `w` characters. */
  function ZeroPad(n: nat, w: nat): (r: string)
    ensures AllDigits(r) && |r| >= w
  {
    var d := Decimal(n);
    if |d| < w then seq(w - |d|, _ => '0') + d else d
  }

  /** Leading zeros do not change the value of a digit string. */
  lemma {:induction false} LeadingZerosValue(k: nat, d: string)
    requires AllDigits(d)
    ensures AllDigits(seq(k, _ => '0') + d)
    ensures DigitsValue(seq(k, _ => '0') + d) == DigitsValue(d)
  {
    var z: string := seq(k, _ => '0');
    if d == [] {
      assert z + d == z;
      ZerosValue(k);
    } else {
      var s := z + d;
      assert s[..|s| - 1] == z + d[..|d| - 1];
      LeadingZerosValue(k, d[..|d| - 1]);
    }
  }

  lemma {:induction false} ZerosValue(k: nat)
    ensures AllDigits(seq(k, _ => '0'))
    ensures DigitsValue(seq(k, _ => '0')) == 0
  {
    if k > 0 {
      var z: string := seq(k, _ => '0');
      assert z[..k - 1] == seq(k - 1, _ => '0');
      ZerosValue(k - 1);
    }
  }

  /** `%0wd` of a value below 10^w is exactly `w` digits and reads back as the value. */
  lemma ZeroPadExact(n: nat, w: nat)
    requires 1 <= w && n < Pow10(w)
    ensures |ZeroPad(n, w)| == w
    ensures DigitsValue(ZeroPad(n, w)) == n
  {
    DecimalWidth(n, w, Pow10(w));
    DecimalValue(n);
    var d := Decimal(n);
    if |d| < w {
      LeadingZerosValue(w - |d|, d);
    }
  }

  /** printf `%d` of any integer. */
  function FormatInt(n: int): (r: string)
    ensures 1 <= |r|
  {
    if n < 0 then "-" + Decimal(-n) else Decimal(n)
  }

  /** `Print::println(n)`: the decimal text followed by CR LF. */
  function PrintLine(n: int): string
  {
    FormatInt(n) + "\r\n"
  }

  /** Drops characters up to the first '-' or digit (how `Stream::parseInt` skips to a number). */
  function {:induction false} SkipToNumber(s: string): (r: string)
    ensures |r| <= |s| && r == s[|s| - |r|..]
    ensures r != [] ==> r[0] == '-' || IsDigit(r[0])
  {
    if s == [] || s[0] == '-' || IsDigit(s[0]) then s else SkipToNumber(s[1..])
  }

  /** The longest prefix of `s` made of digits. */
  function {:induction false} LeadingDigits(s: string): (r: string)
    ensures AllDigits(r) && |r| <= |s| && r == s[..|r|]
    ensures |r| < |s| ==> !IsDigit(s[|r|])
  {
    if s == [] || !IsDigit(s[0]) then [] else [s[0]] + LeadingDigits(s[1..])
  }

  /** `Stream::parseInt()`: the first (optionally negative) decimal number in the text, or 0 when there is none. */
  function ParseInt(s: string): int
  {
    var t := SkipToNumber(s);
    if t == [] then 0
    else if t[0] == '-' then -(DigitsValue(LeadingDigits(t[1..])) as int)
    else DigitsValue(LeadingDigits(t))
  }

  lemma {:induction false} LeadingDigitsOf(d: string, tail: string)
    requires AllDigits(d)
    requires tail != [] && !IsDigit(tail[0])
    ensures LeadingDigits(d + tail) == d
  {
    if d != [] {
      assert (d + tail)[1..] == d[1..] + tail;
      LeadingDigitsOf(d[1..], tail);
    }
  }

  /** A non-negative value printed by `println(n)` is read back by `parseInt()`. */
  lemma ParseNaturalLine(n: nat)
    ensures ParseInt(Decimal(n) + "\r\n") == n
  {
    var d := Decimal(n);
    var s := d + "\r\n";
    assert s[0] == d[0];
    assert SkipToNumber(s) == s;
    LeadingDigitsOf(d, "\r\n");
    DecimalValue(n);
  }

  /** A negative value printed by `println(n)` is read back by `parseInt()`. */
  lemma ParseNegativeLine(n: nat)
    requires n > 0
    ensures ParseInt("-" + Decimal(n) + "\r\n") == -(n as int)
  {
    var d := Decimal(n);
    var s := "-" + Decimal(n) + "\r\n";
    assert SkipToNumber(s) == s;
    assert s[1..] == d + "\r\n";
    LeadingDigitsOf(d, "\r\n");
    DecimalValue(n);
  }

  /** What `println(n)` writes, `parseInt()` reads back. */
  lemma ParsePrintedLine(n: int)
    ensures ParseInt(PrintLine(n)) == n
  {
    if n < 0 {
      PrintedNegative(n);
    } else {
      PrintedNatural(n);
    }
  }

  lemma PrintedNegative(n: int)
    requires n < 0
    ensures ParseInt(PrintLine(n)) == n
  {
    assert PrintLine(n) == "-" + Decimal(-n) + "\r\n";
    ParseNegativeLine(-n);
  }

  lemma PrintedNatural(n: int)
    requires n >= 0
    ensures ParseInt(PrintLine(n)) == n
  {
    assert PrintLine(n) == Decimal(n) + "\r\n";
    ParseNaturalLine(n);
  }
}
