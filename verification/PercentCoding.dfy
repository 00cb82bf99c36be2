/**
 Percent coding (RFC 3986, sections 2.1 and 2.3): the encoder of canonical
 requests, the decoder of request paths, and when one undoes the other.
 A byte string is a string of characters below 256.
 */
module PercentCoding {
  import opened Text

  predicate IsBytes(s: string) { forall i :: 0 <= i < |s| ==> s[i] as int < 256 }

  // ----- UTF-8 -----

  function Byte(n: nat): char
    requires n < 256
  {
    n as char
  }

  /** The UTF-8 form of a code point. */
  function Utf8(r: char): (s: string)
    ensures 1 <= |s| <= 4
  {
    var n := r as int;
    if n < 0x80 then [Byte(n)]
    else if n < 0x800 then [Byte(0xC0 + n / 0x40), Byte(0x80 + n % 0x40)]
    else if n < 0x1_0000 then
      [Byte(0xE0 + n / 0x1000), Byte(0x80 + n / 0x40 % 0x40), Byte(0x80 + n % 0x40)]
    else
      [Byte(0xF0 + n / 0x4_0000), Byte(0x80 + n / 0x1000 % 0x40), Byte(0x80 + n / 0x40 % 0x40), Byte(0x80 + n % 0x40)]
  }

  function Utf8All(runes: string): string {
    if runes == "" then "" else Utf8(runes[0]) + Utf8All(runes[1..])
  }

  ghost predicate ValidUtf8(s: string) { exists runes :: s == Utf8All(runes) }

  const RUNE_ERROR: char := '\U{FFFD}'

  predicate At(s: string, i: nat, lo: int, hi: int) { i < |s| && lo <= s[i] as int <= hi }

  /** Bits taken from a continuation byte. */
  function Low(c: char): int { c as int % 0x40 }

  /** utf8.DecodeRuneInString: a code point and its width, or the replacement character and one byte. */
  function DecodeRune(s: string): (r: (char, nat))
    requires s != ""
    ensures 1 <= r.1 <= |s|
  {
    var b := s[0] as int;
    if b < 0x80 then (s[0], 1)
    else if 0xC2 <= b <= 0xDF && At(s, 1, 0x80, 0xBF) then (((b - 0xC0) * 0x40 + Low(s[1])) as char, 2)
    else if 0xE0 <= b <= 0xEF
            && At(s, 1, if b == 0xE0 then 0xA0 else 0x80, if b == 0xED then 0x9F else 0xBF)
            && At(s, 2, 0x80, 0xBF) then
      (((b - 0xE0) * 0x1000 + Low(s[1]) * 0x40 + Low(s[2])) as char, 3)
    else if 0xF0 <= b <= 0xF4
            && At(s, 1, if b == 0xF0 then 0x90 else 0x80, if b == 0xF4 then 0x8F else 0xBF)
            && At(s, 2, 0x80, 0xBF) && At(s, 3, 0x80, 0xBF) then
      (((b - 0xF0) * 0x4_0000 + Low(s[1]) * 0x1000 + Low(s[2]) * 0x40 + Low(s[3])) as char, 4)
    else (RUNE_ERROR, 1)
  }

  /** What a range loop over a Go string sees. */
  function Runes(s: string): string {
    if s == "" then "" else [DecodeRune(s).0] + Runes(s[DecodeRune(s).1..])
  }

  /** The base-64 digits of a code point. */
  lemma Digits(n: nat)
    requires n < 0x11_0000
    ensures n == n / 0x40 * 0x40 + n % 0x40
    ensures n / 0x40 == n / 0x1000 * 0x40 + n / 0x40 % 0x40
    ensures n / 0x1000 == n / 0x4_0000 * 0x40 + n / 0x1000 % 0x40
  {}

  /** The low bits of a continuation byte are the digit it carries. */
  lemma LowOf(d: nat)
    requires d < 0x40
    ensures Low(Byte(0x80 + d)) == d
  {}

  lemma {:induction false} TwoBytes(r: char, rest: string)
    requires 0x80 <= r as int < 0x800
    ensures DecodeRune(Utf8(r) + rest) == (r, |Utf8(r)|)
  {
    hide Low;
    var n, s := r as int, Utf8(r) + rest;
    Digits(n);
    LowOf(n % 0x40);
    assert s[0] == Byte(0xC0 + n / 0x40) && s[1] == Byte(0x80 + n % 0x40);
  }

  lemma {:induction false} ThreeBytes(r: char, rest: string)
    requires 0x800 <= r as int < 0x1_0000
    ensures DecodeRune(Utf8(r) + rest) == (r, |Utf8(r)|)
  {
    hide Low;
    var n, s := r as int, Utf8(r) + rest;
    var a, b := n / 0x40 % 0x40, n % 0x40;
    Digits(n);
    LowOf(a);
    LowOf(b);
    assert s[0] == Byte(0xE0 + n / 0x1000) && s[1] == Byte(0x80 + a) && s[2] == Byte(0x80 + b);
    assert At(s, 1, if n / 0x1000 == 0 then 0xA0 else 0x80, if n / 0x1000 == 0xD then 0x9F else 0xBF);
  }

  lemma {:induction false} FourBytes(r: char, rest: string)
    requires 0x1_0000 <= r as int
    ensures DecodeRune(Utf8(r) + rest) == (r, |Utf8(r)|)
  {
    hide Low;
    var n, s := r as int, Utf8(r) + rest;
    var a, b, c := n / 0x1000 % 0x40, n / 0x40 % 0x40, n % 0x40;
    Digits(n);
    LowOf(a);
    LowOf(b);
    LowOf(c);
    assert s[0] == Byte(0xF0 + n / 0x4_0000) && s[1] == Byte(0x80 + a);
    assert s[2] == Byte(0x80 + b) && s[3] == Byte(0x80 + c);
    assert At(s, 1, if n / 0x4_0000 == 0 then 0x90 else 0x80, if n / 0x4_0000 == 4 then 0x8F else 0xBF);
  }

  lemma {:induction false} DecodeEncodedRune(r: char, rest: string)
    ensures DecodeRune(Utf8(r) + rest) == (r, |Utf8(r)|)
  {
    hide DecodeRune, Utf8;
    var n := r as int;
    if n < 0x80 {
      OneByte(r, rest);
    } else if n < 0x800 {
      TwoBytes(r, rest);
    } else if n < 0x1_0000 {
      ThreeBytes(r, rest);
    } else {
      FourBytes(r, rest);
    }
  }

  lemma {:induction false} OneByte(r: char, rest: string)
    requires r as int < 0x80
    ensures DecodeRune(Utf8(r) + rest) == (r, |Utf8(r)|)
  {
    assert Utf8(r) == [r];
  }

  lemma {:induction false} RunesOfUtf8(runes: string)
    ensures Runes(Utf8All(runes)) == runes
  {
    if runes != "" {
      hide DecodeRune, Utf8;
      var s, rest := Utf8All(runes), Utf8All(runes[1..]);
      DecodeEncodedRune(runes[0], rest);
      RunesOfUtf8(runes[1..]);
      assert s[|Utf8(runes[0])|..] == rest;
      assert runes == [runes[0]] + runes[1..];
    }
  }

  /** Whatever is not replaced is the UTF-8 form of the code point seen. */
  lemma {:induction false} DecodedIsUtf8(s: string)
    requires s != ""
    ensures var (r, w) := DecodeRune(s); (r == RUNE_ERROR && w == 1) || Utf8(r) == s[..w]
  {
    hide Utf8, Low;
    var w := DecodeRune(s).1;
    if w == 1 {
      assert s[..1] == [s[0]];
      OneSeen(s[0]);
    } else if w == 2 {
      assert s[..2] == [s[0], s[1]];
      TwoSeen(s[0], s[1]);
    } else if w == 3 {
      assert s[..3] == [s[0], s[1], s[2]];
      ThreeSeen(s[0], s[1], s[2]);
    } else {
      assert s[..4] == [s[0], s[1], s[2], s[3]];
      FourSeen(s[0], s[1], s[2], s[3]);
    }
  }

  lemma OneSeen(a: char)
    ensures a as int < 0x80 ==> Utf8(a) == [a]
  {}

  lemma {:induction false} TwoSeen(a: char, b: char)
    requires 0xC2 <= a as int <= 0xDF && 0x80 <= b as int <= 0xBF
    ensures Utf8(((a as int - 0xC0) * 0x40 + Low(b)) as char) == [a, b]
  {
    LowByte(b);
  }

  lemma {:induction false} ThreeSeen(a: char, b: char, c: char)
    requires 0xE0 <= a as int <= 0xEF && 0x80 <= b as int <= 0xBF && 0x80 <= c as int <= 0xBF
    requires (a as int == 0xE0 ==> b as int >= 0xA0) && (a as int == 0xED ==> b as int <= 0x9F)
    ensures Utf8(((a as int - 0xE0) * 0x1000 + Low(b) * 0x40 + Low(c)) as char) == [a, b, c]
  {
    LowByte(b);
    LowByte(c);
    ThreeDigits(a as int - 0xE0, Low(b), Low(c));
  }

  lemma {:induction false} FourSeen(a: char, b: char, c: char, d: char)
    requires 0xF0 <= a as int <= 0xF4 && 0x80 <= b as int <= 0xBF && 0x80 <= c as int <= 0xBF && 0x80 <= d as int <= 0xBF
    requires (a as int == 0xF0 ==> b as int >= 0x90) && (a as int == 0xF4 ==> b as int <= 0x8F)
    ensures Utf8(((a as int - 0xF0) * 0x4_0000 + Low(b) * 0x1000 + Low(c) * 0x40 + Low(d)) as char) == [a, b, c, d]
  {
    LowByte(b);
    LowByte(c);
    LowByte(d);
    FourDigits(a as int - 0xF0, Low(b), Low(c), Low(d));
  }

  lemma LowByte(c: char)
    requires 0x80 <= c as int <= 0xBF
    ensures 0 <= Low(c) < 0x40 && Byte(0x80 + Low(c)) == c
  {}

  lemma LastDigit(q: nat, d: nat)
    requires d < 0x40
    ensures (q * 0x40 + d) / 0x40 == q && (q * 0x40 + d) % 0x40 == d
  {}

  lemma Shifts(n: nat)
    ensures n / 0x1000 == n / 0x40 / 0x40 && n / 0x4_0000 == n / 0x1000 / 0x40
  {}

  lemma {:induction false} ThreeDigits(a: nat, b: nat, c: nat)
    requires b < 0x40 && c < 0x40
    ensures var n := a * 0x1000 + b * 0x40 + c; n / 0x1000 == a && n / 0x40 % 0x40 == b && n % 0x40 == c
  {
    var n := a * 0x1000 + b * 0x40 + c;
    LastDigit(a * 0x40 + b, c);
    LastDigit(a, b);
    Shifts(n);
    assert n == (a * 0x40 + b) * 0x40 + c;
  }

  lemma {:induction false} FourDigits(a: nat, b: nat, c: nat, d: nat)
    requires b < 0x40 && c < 0x40 && d < 0x40
    ensures var n := a * 0x4_0000 + b * 0x1000 + c * 0x40 + d;
            n / 0x4_0000 == a && n / 0x1000 % 0x40 == b && n / 0x40 % 0x40 == c && n % 0x40 == d
  {
    var n := a * 0x4_0000 + b * 0x1000 + c * 0x40 + d;
    var m := a * 0x1000 + b * 0x40 + c;
    LastDigit(m, d);
    LastDigit(a * 0x40 + b, c);
    LastDigit(a, b);
    Shifts(n);
    assert n == m * 0x40 + d && m == (a * 0x40 + b) * 0x40 + c;
  }

  /** A code point is seen exactly where its UTF-8 form stands; anywhere else one byte is replaced. */
  lemma {:induction false} DecodeRuneIff(s: string, r: char)
    requires s != ""
    ensures Utf8(r) <= s <==> DecodeRune(s) == (r, |Utf8(r)|)
    ensures DecodeRune(s) == (RUNE_ERROR, 1) <==> forall c: char :: !(Utf8(c) <= s)
  {
    hide DecodeRune;
    DecodedIsUtf8(s);
    forall c: char | Utf8(c) <= s
      ensures DecodeRune(s) == (c, |Utf8(c)|)
    {
      assert s == Utf8(c) + s[|Utf8(c)|..];
      DecodeEncodedRune(c, s[|Utf8(c)|..]);
    }
    var (seen, w) := DecodeRune(s);
    if !(seen == RUNE_ERROR && w == 1) {
      assert Utf8(seen) <= s;
    }
    assert |Utf8(RUNE_ERROR)| == 3;
  }

  // ----- encoding -----

  predicate Unreserved(r: char) {
    'A' <= r <= 'Z' || 'a' <= r <= 'z' || '0' <= r <= '9' || r in "-._~"
  }

  function UpperHex(n: nat): char
    requires n < 16
  {
    if n < 10 then '0' + n as char else 'A' + (n - 10) as char
  }

  /** fmt.Fprintf("%%%02X", b) for each byte. */
  function Percent(bytes: string): string
    requires IsBytes(bytes)
  {
    if bytes == "" then "" else EscapeOf(bytes[0]) + Percent(bytes[1..])
  }

  function EncodeRune(r: char): string { if Unreserved(r) then [r] else Percent(Utf8(r)) }

  function EncodeRunes(runes: string): string {
    if runes == "" then "" else EncodeRune(runes[0]) + EncodeRunes(runes[1..])
  }

  /** encodeRFC3986; bytes that are not UTF-8 count as replacement characters. */
  function Encode(s: string): string { EncodeRunes(Runes(s)) }

  method EncodeRFC3986(s: string) returns (result: string)
    ensures result == Encode(s)
  {
    hide DecodeRune, EncodeRune;
    result := "";
    var i := 0;
    assert s[0..] == s;
    while i < |s|
      invariant i <= |s|
      invariant result + EncodeRunes(Runes(s[i..])) == Encode(s)
    {
      var (r, width) := DecodeRune(s[i..]);
      var encoded := EncodeOne(r);
      ghost var runes := Runes(s[i..]);
      assert s[i..][width..] == s[i + width..];
      assert runes[1..] == Runes(s[i + width..]);
      Assoc(result, encoded, EncodeRunes(runes[1..]));
      result := result + encoded;
      i := i + width;
    }
  }

  /** The body of the encoder's loop. */
  method EncodeOne(r: char) returns (encoded: string)
    ensures encoded == EncodeRune(r)
  {
    if Unreserved(r) {
      return [r];
    }
    hide Utf8;
    var bytes := Utf8Bytes(r);
    encoded := "";
    assert bytes[0..] == bytes;
    for i := 0 to |bytes|
      invariant encoded + Percent(bytes[i..]) == Percent(bytes)
    {
      var b := bytes[i] as int;
      assert bytes[i..][1..] == bytes[i + 1..];
      var escape := ['%', UpperHex(b / 16), UpperHex(b % 16)];
      Assoc(encoded, escape, Percent(bytes[i + 1..]));
      encoded := encoded + escape;
    }
  }

  predicate IsUpperHex(c: char) { '0' <= c <= '9' || 'A' <= c <= 'F' }

  /** Unreserved characters and escapes with capital digits. */
  predicate UpperEscapes(s: string) {
    s == "" || (Unreserved(s[0]) && UpperEscapes(s[1..]))
    || (|s| >= 3 && s[0] == '%' && IsUpperHex(s[1]) && IsUpperHex(s[2]) && UpperEscapes(s[3..]))
  }

  lemma {:induction false} PercentIsUpper(bytes: string, rest: string)
    requires IsBytes(bytes) && UpperEscapes(rest)
    ensures UpperEscapes(Percent(bytes) + rest)
  {
    if bytes == "" {
      assert Percent(bytes) + rest == rest;
    } else {
      PercentIsUpper(bytes[1..], rest);
      var more := Percent(bytes[1..]) + rest;
      Assoc(EscapeOf(bytes[0]), Percent(bytes[1..]), rest);
      EscapeIsUpper(bytes[0], more);
    }
  }

  lemma {:induction false} EscapeIsUpper(c: char, rest: string)
    requires c as int < 256 && UpperEscapes(rest)
    ensures UpperEscapes(EscapeOf(c) + rest)
  {
    assert (EscapeOf(c) + rest)[3..] == rest;
  }

  /** Canonical requests escape with capital digits, and nothing that is unreserved. */
  lemma {:induction false} EncodedIsUpper(runes: string)
    ensures UpperEscapes(EncodeRunes(runes))
  {
    if runes != "" {
      hide Utf8;
      EncodedIsUpper(runes[1..]);
      var rest := EncodeRunes(runes[1..]);
      if Unreserved(runes[0]) {
        assert ([runes[0]] + rest)[1..] == rest;
      } else {
        PercentIsUpper(Utf8Bytes(runes[0]), rest);
      }
    }
  }

  // ----- decoding -----

  /** hexValue: 255 for anything but a hexadecimal digit. */
  function HexValue(c: char): (v: nat)
    ensures v < 16 || v == 255
  {
    if '0' <= c <= '9' then c as int - '0' as int
    else if 'A' <= c <= 'F' then c as int - 'A' as int + 10
    else if 'a' <= c <= 'f' then c as int - 'a' as int + 10
    else 255
  }

  predicate IsHex(c: char) { HexValue(c) != 255 }

  predicate Escape(s: string) { |s| >= 3 && s[0] == '%' && IsHex(s[1]) && IsHex(s[2]) }

  /** The reference decoder: escapes become bytes, and a '%' that starts none stands for itself. */
  function Unescape(s: string): string {
    if s == "" then ""
    else if Escape(s) then [Byte(16 * HexValue(s[1]) + HexValue(s[2]))] + Unescape(s[3..])
    else [s[0]] + Unescape(s[1..])
  }

  /** conservativePathUnescape, on a buffer as long as the path. */
  method ConservativePathUnescape(path: string) returns (result: string)
    ensures result == Unescape(path)
  {
    var r := new char[|path|];
    var i, j := 0, 0;
    assert path[0..] == path;
    while i < |path|
      invariant j <= i <= |path|
      invariant r[..j] + Unescape(path[i..]) == Unescape(path)
    {
      ghost var s := path[i..];
      ghost var written := r[..j];
      var c := path[i];
      var step := 1;
      if c == '%' {
        var h, l := 255, 255;
        if i + 2 < |path| {
          h := HexValue(path[i + 1]);
          l := HexValue(path[i + 2]);
        }
        if h != 255 && l != 255 {
          c := Byte(16 * h + l);
          step := 3;
        }
      }
      r[j] := c;
      assert s[step..] == path[i + step..];
      assert Unescape(s) == [c] + Unescape(s[step..]);
      assert r[..j + 1] == written + [c];
      Assoc(written, [c], Unescape(s[step..]));
      i := i + step;
      j := j + 1;
    }
    assert path[|path|..] == "" && r[..j] + "" == r[..j];
    result := r[..j];
  }

  lemma {:induction false} UnescapeShortens(s: string)
    ensures |Unescape(s)| <= |s|
  {
    if s != "" {
      UnescapeShortens(if Escape(s) then s[3..] else s[1..]);
    }
  }

  // ----- the decoder undoes the encoder -----

  function EscapeOf(c: char): string
    requires c as int < 256
  {
    ['%', UpperHex(c as int / 16), UpperHex(c as int % 16)]
  }

  lemma {:induction false} UnescapeOne(c: char, rest: string)
    requires c as int < 256
    ensures Unescape(EscapeOf(c) + rest) == [c] + Unescape(rest)
  {
    var b, s := c as int, EscapeOf(c) + rest;
    assert s[3..] == rest;
    assert HexValue(s[1]) == b / 16 && HexValue(s[2]) == b % 16;
    assert Byte(16 * (b / 16) + b % 16) == c;
  }

  function LowerHex(n: nat): char
    requires n < 16
  {
    if n < 10 then '0' + n as char else 'a' + (n - 10) as char
  }

  /** Escapes are decoded with digits in either case. */
  lemma {:induction false} UnescapeEitherCase(c: char, h: char, l: char, rest: string)
    requires c as int < 256
    requires h == UpperHex(c as int / 16) || h == LowerHex(c as int / 16)
    requires l == UpperHex(c as int % 16) || l == LowerHex(c as int % 16)
    ensures Unescape(['%', h, l] + rest) == [c] + Unescape(rest)
  {
    var b, s := c as int, ['%', h, l] + rest;
    assert s[3..] == rest;
    assert HexValue(h) == b / 16 && HexValue(l) == b % 16;
    assert Byte(16 * (b / 16) + b % 16) == c;
  }

  /** And a '%' without two digits behind it stands for itself. */
  lemma {:induction false} UnescapeLonePercent(rest: string)
    requires |rest| < 2 || !IsHex(rest[0]) || !IsHex(rest[1])
    ensures Unescape("%" + rest) == "%" + Unescape(rest)
  {
    assert ("%" + rest)[1..] == rest;
  }

  lemma {:induction false} UnescapePercent(bytes: string, rest: string)
    requires IsBytes(bytes)
    ensures Unescape(Percent(bytes) + rest) == bytes + Unescape(rest)
  {
    hide Unescape;
    if bytes == "" {
      assert Percent(bytes) + rest == rest && bytes + Unescape(rest) == Unescape(rest);
    } else {
      UnescapePercent(bytes[1..], rest);
      UnescapeOne(bytes[0], Percent(bytes[1..]) + rest);
      Assoc(EscapeOf(bytes[0]), Percent(bytes[1..]), rest);
      Assoc([bytes[0]], bytes[1..], Unescape(rest));
      assert bytes == [bytes[0]] + bytes[1..];
    }
  }

  lemma {:induction false} UnescapeRune(r: char, rest: string)
    ensures Unescape(EncodeRune(r) + rest) == Utf8(r) + Unescape(rest)
  {
    if Unreserved(r) {
      var s := [r] + rest;
      assert s[1..] == rest && Utf8(r) == [r];
    } else {
      UnescapePercent(Utf8(r), rest);
    }
  }

  /** Whatever is encoded decodes to the UTF-8 form of the runes it was read as. */
  lemma {:induction false} UnescapeEncoded(runes: string)
    ensures Unescape(EncodeRunes(runes)) == Utf8All(runes)
  {
    hide EncodeRune, Utf8;
    if runes != "" {
      UnescapeEncoded(runes[1..]);
      UnescapeRune(runes[0], EncodeRunes(runes[1..]));
    }
  }

  /** The decoder undoes the encoder on a byte string exactly when it is UTF-8. */
  lemma {:induction false} RoundTripIff(s: string)
    ensures Unescape(Encode(s)) == s <==> ValidUtf8(s)
  {
    UnescapeEncoded(Runes(s));
    if runes :| s == Utf8All(runes) {
      RunesOfUtf8(runes);
    }
  }

  /** So encoded texts can be told apart. */
  lemma {:induction false} EncodeInjective(a: string, b: string)
    requires ValidUtf8(a) && ValidUtf8(b) && Encode(a) == Encode(b)
    ensures a == b
  {
    RoundTripIff(a);
    RoundTripIff(b);
  }

  predicate Plain(s: string) { forall i :: 0 <= i < |s| ==> Unreserved(s[i]) || s[i] == '%' }

  lemma {:induction false} PercentIsPlain(bytes: string)
    requires IsBytes(bytes)
    ensures Plain(Percent(bytes))
  {
    if bytes != "" {
      PercentIsPlain(bytes[1..]);
    }
  }

  /** Only unreserved characters and '%' come out, so separators never do. */
  lemma {:induction false} EncodedIsPlain(runes: string)
    ensures Plain(EncodeRunes(runes))
  {
    if runes != "" {
      hide Utf8;
      EncodedIsPlain(runes[1..]);
      PercentIsPlain(Utf8Bytes(runes[0]));
    }
  }

  function Utf8Bytes(r: char): (s: string)
    ensures s == Utf8(r) && IsBytes(s)
  {
    Utf8(r)
  }

  // ----- decoding a prefix and a key on their own -----

  /** The text ends in a '%' that what follows could complete to an escape. */
  predicate Dangling(s: string) {
    || (|s| >= 1 && s[|s| - 1] == '%')
    || (|s| >= 2 && s[|s| - 2] == '%' && IsHex(s[|s| - 1]))
  }

  lemma {:induction false} UnescapeConcat(p: string, k: string)
    requires !Dangling(p)
    ensures Unescape(p + k) == Unescape(p) + Unescape(k)
  {
    if p == "" {
      assert p + k == k;
    } else {
      var n := if Escape(p) then 3 else 1;
      assert (p + k)[n..] == p[n..] + k;
      assert Escape(p + k) <==> Escape(p);
      UnescapeConcat(p[n..], k);
    }
  }

  /** The continuation that completes the dangling escape. */
  function Completion(p: string): string { if p != "" && p[|p| - 1] == '%' then "41" else "1" }

  lemma {:induction false} CompletedIsShorter(p: string)
    requires Dangling(p)
    ensures |Unescape(p + Completion(p))| < |Unescape(p)| + |Completion(p)|
  {
    var k := Completion(p);
    if p == "%" {
      assert (p + k)[3..] == "" && Escape(p + k);
    } else if |p| == 2 && p[0] == '%' && IsHex(p[1]) {
      assert (p + k)[3..] == "" && Escape(p + k);
      assert p[1..][1..] == "" && !Escape(p) && !Escape(p[1..]);
    } else {
      var n := if Escape(p) then 3 else 1;
      assert (p + k)[n..] == p[n..] + k;
      assert Escape(p + k) <==> Escape(p);
      CompletedIsShorter(p[n..]);
    }
  }

  /** Decoding distributes over a prefix and any key exactly when the prefix leaves no escape open. */
  lemma {:induction false} UnescapeConcatIff(p: string)
    ensures !Dangling(p) <==> forall k :: Unescape(p + k) == Unescape(p) + Unescape(k)
  {
    if Dangling(p) {
      var k := Completion(p);
      CompletedIsShorter(p);
      assert |Unescape("41")| == 2 && |Unescape("1")| == 1 by {
        assert "41"[1..] == "1" && "1"[1..] == "";
      }
      assert |Unescape(k)| == |k|;
      assert Unescape(p + k) != Unescape(p) + Unescape(k);
    } else {
      forall k
        ensures Unescape(p + k) == Unescape(p) + Unescape(k)
      {
        UnescapeConcat(p, k);
      }
    }
  }
}
