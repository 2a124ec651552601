/** Percent coding of URL text. */
module UrlCodec {
  import opened Text
  import opened Wrappers

  predicate IsByte(c: char)
  {
    c as int < 256
  }

  predicate Bytes(s: string)
  {
    forall c :: c in s ==> IsByte(c)
  }

  /** is_hex */
  function HexValue(c: char): (v: Option<nat>)
    ensures v.Some? ==> v.value < 16
  {
    if '0' <= c <= '9' then Some(c as int - '0' as int)
    else if 'A' <= c <= 'F' then Some(c as int - 'A' as int + 10)
    else if 'a' <= c <= 'f' then Some(c as int - 'a' as int + 10)
    else None
  }

  function Pow16(n: nat): nat
  {
    if n == 0 then 1 else 16 * Pow16(n - 1)
  }

  /** The value of exactly `cnt` hexadecimal digits at `i`. */
  function FromHex(s: string, i: nat, cnt: nat): (v: Option<nat>)
    ensures v.Some? ==> v.value < Pow16(cnt) && (cnt > 0 ==> i + cnt <= |s|)
  {
    if cnt == 0 then Some(0)
    else
      var high :- FromHex(s, i, cnt - 1);
      if i + cnt > |s| then None
      else
        var d :- HexValue(s[i + cnt - 1]);
        Some(high * 16 + d)
  }

  lemma {:induction false} FromHexStops(s: string, i: nat, k: nat, cnt: nat)
    requires k <= cnt && FromHex(s, i, k).None?
    ensures FromHex(s, i, cnt).None?
    decreases cnt
  {
    if k < cnt { FromHexStops(s, i, k, cnt - 1); }
  }

  /** from_hex_to_i */
  method FromHexToI(s: string, i: nat, cnt: nat) returns (ok: bool, val: nat)
    requires cnt > 0
    ensures ok == FromHex(s, i, cnt).Some?
    ensures ok ==> val == FromHex(s, i, cnt).value
  {
    val := 0;
    if i >= |s| {
      FromHexStops(s, i, 1, cnt);
      return false, 0;
    }
    var k := 0;
    while k < cnt
      invariant 0 <= k <= cnt
      invariant FromHex(s, i, k) == Some(val)
    {
      if i + k >= |s| {
        FromHexStops(s, i, k + 1, cnt);
        return false, val;
      }
      match HexValue(s[i + k]) {
        case None =>
          FromHexStops(s, i, k + 1, cnt);
          return false, val;
        case Some(v) => val := val * 16 + v;
      }
      k := k + 1;
    }
    return true, val;
  }

  /** to_utf8 for a code of four hexadecimal digits; a surrogate has no encoding. */
  function ToUtf8(code: nat): string
    requires code < 0x10000
  {
    if code < 0x80 then [code as char]
    else if code < 0x800 then [(0xC0 + code / 64) as char, (0x80 + code % 64) as char]
    else if 0xD800 <= code < 0xE000 then ""
    else [(0xE0 + code / 4096) as char, (0x80 + code / 64 % 64) as char, (0x80 + code % 64) as char]
  }

  /** One decoded unit at the start of `s`: its text and how many characters it takes. */
  function DecodeUnit(s: string, plus: bool): (r: (string, nat))
    requires s != ""
    ensures 0 < r.1 <= |s|
  {
    if s[0] == '%' && |s| > 1 then
      if s[1] == 'u' then
        match FromHex(s, 2, 4)
        case Some(v) => assert Pow16(4) == 0x10000; (ToUtf8(v), 6)
        case None => ("%", 1)
      else
        match FromHex(s, 1, 2)
        case Some(v) => assert Pow16(2) == 256; ([v as char], 3)
        case None => ("%", 1)
    else if plus && s[0] == '+' then (" ", 1)
    else ([s[0]], 1)
  }

  function DecodeUrl(s: string, plus: bool): string
    decreases |s|
  {
    if s == "" then ""
    else
      var (text, n) := DecodeUnit(s, plus);
      text + DecodeUrl(s[n..], plus)
  }

  lemma {:induction false} FromHexDrop(s: string, n: nat, i: nat, cnt: nat)
    requires n <= |s|
    ensures FromHex(s[n..], i, cnt) == FromHex(s, n + i, cnt)
    decreases cnt
  {
    if cnt > 0 {
      FromHexDrop(s, n, i, cnt - 1);
      if i + cnt <= |s| - n { assert s[n..][i + cnt - 1] == s[n + i + cnt - 1]; }
    }
  }

  /** The body of decode_url's loop: the text decoded at `i` and the last index it uses. */
  method DecodeAt(s: string, i: nat, plus: bool) returns (text: string, last: nat)
    requires i < |s|
    ensures i <= last < |s| && DecodeUnit(s[i..], plus) == (text, last + 1 - i)
  {
    assert s[i..][0] == s[i];
    if s[i] == '%' && i + 1 < |s| {
      assert s[i..][1] == s[i + 1];
      if s[i + 1] == 'u' {
        FromHexDrop(s, i, 2, 4);
        var ok, val := FromHexToI(s, i + 2, 4);
        if ok {
          assert Pow16(4) == 0x10000;
          return ToUtf8(val), i + 5;
        }
      } else {
        FromHexDrop(s, i, 1, 2);
        var ok, val := FromHexToI(s, i + 1, 2);
        if ok {
          assert Pow16(2) == 256;
          return [val as char], i + 2;
        }
      }
      return "%", i;
    } else if plus && s[i] == '+' {
      return " ", i;
    }
    return [s[i]], i;
  }

  /** decode_url */
  method DecodeUrlText(s: string, plus: bool) returns (result: string)
    ensures result == DecodeUrl(s, plus)
  {
    hide DecodeUnit;
    result := "";
    var i := 0;
    assert s[0..] == s;
    while i < |s|
      invariant 0 <= i <= |s|
      invariant DecodeUrl(s, plus) == result + DecodeUrl(s[i..], plus)
    {
      var text, last := DecodeAt(s, i, plus);
      DecodeUrlStep(s[i..], plus);
      assert s[i..][last + 1 - i..] == s[last + 1..];
      result := result + text;
      i := last + 1;
    }
    assert s[i..] == "";
  }

  lemma DecodeUrlStep(s: string, plus: bool)
    requires s != ""
    ensures var (text, n) := DecodeUnit(s, plus);
            DecodeUrl(s, plus) == text + DecodeUrl(s[n..], plus)
  {
    hide DecodeUnit;
  }

  predicate IsAlnum(c: char)
  {
    'a' <= c <= 'z' || 'A' <= c <= 'Z' || '0' <= c <= '9'
  }

  /** The characters encode_query_param leaves alone. */
  predicate IsPlainQueryChar(c: char)
  {
    IsAlnum(c) || c in "-_.!~*'()"
  }

  function UpperHexDigit(n: nat): char
    requires n < 16
  {
    if n < 10 then ('0' as int + n) as char else ('A' as int + n - 10) as char
  }

  function EncodeChar(c: char): string
    requires IsByte(c)
  {
    if IsPlainQueryChar(c) then [c]
    else ['%', UpperHexDigit(c as int / 16), UpperHexDigit(c as int % 16)]
  }

  function EncodeQuery(value: string): string
    requires Bytes(value)
  {
    if value == "" then "" else EncodeChar(value[0]) + EncodeQuery(value[1..])
  }

  lemma {:induction false} EncodeQuerySnoc(value: string, c: char)
    requires Bytes(value) && IsByte(c)
    ensures Bytes(value + [c])
    ensures EncodeQuery(value + [c]) == EncodeQuery(value) + EncodeChar(c)
    decreases |value|
  {
    if value == "" {
      assert value + [c] == [c] && [c][1..] == "";
    } else {
      assert (value + [c])[1..] == value[1..] + [c];
      EncodeQuerySnoc(value[1..], c);
    }
  }

  /** encode_query_param */
  method EncodeQueryParam(value: string) returns (escaped: string)
    requires Bytes(value)
    ensures escaped == EncodeQuery(value)
  {
    hide EncodeChar;
    escaped := "";
    for i := 0 to |value|
      invariant escaped == EncodeQuery(value[..i])
    {
      EncodeQuerySnoc(value[..i], value[i]);
      assert value[..i + 1] == value[..i] + [value[i]];
      escaped := escaped + EncodeChar(value[i]);
    }
    assert value[..|value|] == value;
  }

  lemma DecodeEncodedChar(c: char, rest: string, plus: bool)
    requires IsByte(c)
    ensures EncodeChar(c) + rest != ""
    ensures DecodeUnit(EncodeChar(c) + rest, plus) == ([c], |EncodeChar(c)|)
  {
    var s := EncodeChar(c) + rest;
    if !IsPlainQueryChar(c) {
      var h, l := c as int / 16, c as int % 16;
      HexDigitValue(h);
      HexDigitValue(l);
      assert s[1] == UpperHexDigit(h) && s[2] == UpperHexDigit(l);
      assert FromHex(s, 1, 0) == Some(0);
      assert FromHex(s, 1, 1) == Some(h);
      assert FromHex(s, 1, 2) == Some(h * 16 + l);
      assert h * 16 + l == c as int;
    }
  }

  lemma HexDigitValue(n: nat)
    requires n < 16
    ensures HexValue(UpperHexDigit(n)) == Some(n) && UpperHexDigit(n) != 'u'
  {
  }

  /** Decoding undoes encoding, for every byte string and either reading of '+'. */
  lemma {:induction false} DecodeEncoded(value: string, plus: bool)
    requires Bytes(value)
    ensures DecodeUrl(EncodeQuery(value), plus) == value
    decreases |value|
  {
    if value != "" {
      hide EncodeChar, DecodeUnit;
      var e, rest := EncodeChar(value[0]), EncodeQuery(value[1..]);
      DecodeEncodedChar(value[0], rest, plus);
      DecodeUrlStep(e + rest, plus);
      assert (e + rest)[|e|..] == rest;
      DecodeEncoded(value[1..], plus);
    }
  }

  /** Text without the two special characters is its own decoding. */
  lemma {:induction false} DecodePlain(s: string, plus: bool)
    requires '%' !in s && (plus ==> '+' !in s)
    ensures DecodeUrl(s, plus) == s
    decreases |s|
  {
    if s != "" {
      assert s[0] in s;
      DecodePlain(s[1..], plus);
    }
  }

  /** Text without percent signs keeps its characters, but for the pluses that stand for spaces. */
  lemma {:induction false} DecodeWithoutPercent(s: string, plus: bool)
    requires '%' !in s
    ensures var d := DecodeUrl(s, plus);
            && |d| == |s|
            && forall i :: 0 <= i < |s| ==> d[i] == if plus && s[i] == '+' then ' ' else s[i]
    decreases |s|
  {
    if s != "" {
      assert s[0] in s;
      DecodeWithoutPercent(s[1..], plus);
    }
  }

  /** What forms send: a space is a plus sign. */
  function EncodeFormChar(c: char): string
    requires IsByte(c)
  {
    if c == ' ' then "+" else EncodeChar(c)
  }

  function EncodeForm(value: string): string
    requires Bytes(value)
  {
    if value == "" then "" else EncodeFormChar(value[0]) + EncodeForm(value[1..])
  }

  /** Decoding with the plus rule undoes the encoding of forms. */
  lemma {:induction false} DecodeForm(value: string)
    requires Bytes(value)
    ensures DecodeUrl(EncodeForm(value), true) == value
    decreases |value|
  {
    if value != "" {
      var e, rest := EncodeFormChar(value[0]), EncodeForm(value[1..]);
      if value[0] != ' ' { DecodeEncodedChar(value[0], rest, true); }
      assert DecodeUnit(e + rest, true) == ([value[0]], |e|);
      hide EncodeFormChar, DecodeUnit;
      DecodeUrlStep(e + rest, true);
      assert (e + rest)[|e|..] == rest;
      DecodeForm(value[1..]);
    }
  }

  /** The characters that have a meaning of their own in a URL. */
  const RESERVED := ":/?#[]@$&+,;=% \"<>\\^`{|}"

  /** Encoded text is printable and holds none of them but its percent signs. */
  lemma {:induction false} EncodedIsSafe(value: string)
    requires Bytes(value)
    ensures forall c :: c in EncodeQuery(value) ==> '!' <= c <= '~' && (c == '%' || c !in RESERVED)
    decreases |value|
  {
    hide EncodeChar;
    if value != "" {
      EncodedCharIsSafe(value[0]);
      EncodedIsSafe(value[1..]);
    }
  }

  lemma EncodedCharIsSafe(c: char)
    requires IsByte(c)
    ensures forall d :: d in EncodeChar(c) ==> '!' <= d <= '~' && (d == '%' || d !in RESERVED)
  {
    forall d | d in EncodeChar(c) ensures d == '%' || IsPlainQueryChar(d) {
      HexDigitIsPlain(c as int / 16);
      HexDigitIsPlain(c as int % 16);
    }
    forall d | IsPlainQueryChar(d) ensures '!' <= d <= '~' && d !in RESERVED { PlainIsSafe(d); }
  }

  lemma HexDigitIsPlain(n: nat)
    requires n < 16
    ensures IsPlainQueryChar(UpperHexDigit(n))
  {
  }

  lemma PlainIsSafe(d: char)
    requires IsPlainQueryChar(d)
    ensures '!' <= d <= '~' && d !in RESERVED
  {
  }

  /** What a decoder of UTF-8 makes of one, two or three bytes. */
  function FromUtf8(s: string): Option<nat>
  {
    if |s| == 1 && s[0] as int < 0x80 then Some(s[0] as int)
    else if |s| == 2 && 0xC0 <= s[0] as int < 0xE0 && IsContinuation(s[1]) then
      Some((s[0] as int - 0xC0) * 64 + (s[1] as int - 0x80))
    else if |s| == 3 && 0xE0 <= s[0] as int < 0xF0 && IsContinuation(s[1]) && IsContinuation(s[2]) then
      Some((s[0] as int - 0xE0) * 4096 + (s[1] as int - 0x80) * 64 + (s[2] as int - 0x80))
    else None
  }

  predicate IsContinuation(c: char)
  {
    0x80 <= c as int < 0xC0
  }

  /** Every code but the surrogates has an encoding, which decodes to it and is as short as possible. */
  lemma Utf8RoundTrip(code: nat)
    requires code < 0x10000
    ensures FromUtf8(ToUtf8(code)) == if 0xD800 <= code < 0xE000 then None else Some(code)
    ensures !(0xD800 <= code < 0xE000) ==>
              |ToUtf8(code)| == if code < 0x80 then 1 else if code < 0x800 then 2 else 3
  {
    if code >= 0x800 {
      var (a, b, c) := (code / 4096, code / 64 % 64, code % 64);
      assert code / 64 / 64 == a;
      assert code == (a * 64 + b) * 64 + c;
    }
  }

  const MARKS := "-_.!~*'()"

  predicate Unreserved(c: char)
  {
    c in UPPER || c in LOWER || c in DIGITS || c in MARKS
  }

  /** The code of a character: itself, or a percent sign and two digits. */
  lemma EncodedCharIs(c: char)
    requires IsByte(c)
    ensures EncodeChar(c) == if Unreserved(c) then [c]
                             else ['%', "0123456789ABCDEF"[c as int / 16], "0123456789ABCDEF"[c as int % 16]]
  {
    HexDigitIs(c as int / 16);
    HexDigitIs(c as int % 16);
    PlainIs(c);
  }

  lemma HexDigitIs(n: nat)
    requires n < 16
    ensures UpperHexDigit(n) == "0123456789ABCDEF"[n]
  {
  }

  lemma PlainIs(c: char)
    ensures IsPlainQueryChar(c) <==> Unreserved(c)
  {
    UpperLetters(c);
    LowerLetters(c);
    Digits(c);
  }

  /** The hexadecimal digits, in both letter cases, and nothing else. */
  lemma HexValueIs(n: nat)
    requires n < 16
    ensures HexValue("0123456789abcdef"[n]) == HexValue("0123456789ABCDEF"[n]) == Some(n)
  {
  }

  lemma OnlyHexDigits(c: char)
    requires HexValue(c).Some?
    ensures c == "0123456789abcdef"[HexValue(c).value] || c == "0123456789ABCDEF"[HexValue(c).value]
  {
  }

  /** Four digits behind `%u` are a code in UTF-8, two behind a percent sign a byte. */
  lemma DecodeHexDigits(a: char, b: char, c: char, d: char, rest: string, plus: bool)
    requires HexValue(a).Some? && HexValue(b).Some? && HexValue(c).Some? && HexValue(d).Some?
    ensures var (h, l, m, n) := (HexValue(a).value, HexValue(b).value, HexValue(c).value, HexValue(d).value);
            && ((h * 16 + l) * 16 + m) * 16 + n < 0x10000
            && DecodeUrl("%u" + [a, b, c, d] + rest, plus)
            == ToUtf8(((h * 16 + l) * 16 + m) * 16 + n) + DecodeUrl(rest, plus)
            && DecodeUrl(['%', a, b] + rest, plus) == [(h * 16 + l) as char] + DecodeUrl(rest, plus)
  {
    hide HexValue, ToUtf8, DecodeUrl;
    var (s, t) := ("%u" + [a, b, c, d] + rest, ['%', a, b] + rest);
    assert s[0] == '%' && s[1] == 'u' && s[2] == a && s[3] == b && s[4] == c && s[5] == d && s[6..] == rest;
    assert t[0] == '%' && t[1] == a && t[2] == b && t[3..] == rest;
    UIsNoDigit();
    FourDigits(s, 2);
    TwoDigits(t, 1);
    DecodeUrlStep(s, plus);
    DecodeUrlStep(t, plus);
  }

  lemma UIsNoDigit()
    ensures HexValue('u').None?
  {
  }

  lemma TwoDigits(s: string, i: nat)
    requires i + 2 <= |s| && HexValue(s[i]).Some? && HexValue(s[i + 1]).Some?
    ensures FromHex(s, i, 2) == Some(HexValue(s[i]).value * 16 + HexValue(s[i + 1]).value)
  {
    hide HexValue;
    assert FromHex(s, i, 0) == Some(0);
    assert FromHex(s, i, 1) == Some(HexValue(s[i]).value);
  }

  lemma FourDigits(s: string, i: nat)
    requires i + 4 <= |s| && forall k :: i <= k < i + 4 ==> HexValue(s[k]).Some?
    ensures FromHex(s, i, 4) == Some(((HexValue(s[i]).value * 16 + HexValue(s[i + 1]).value) * 16
                                      + HexValue(s[i + 2]).value) * 16 + HexValue(s[i + 3]).value)
  {
    hide HexValue;
    TwoDigits(s, i);
    assert FromHex(s, i, 3) == Some((HexValue(s[i]).value * 16 + HexValue(s[i + 1]).value) * 16 + HexValue(s[i + 2]).value);
  }

  /** Any other percent sign stays. */
  lemma PercentStays(s: string, plus: bool)
    requires s != "" && s[0] == '%'
    requires !(|s| > 2 && HexValue(s[1]).Some? && HexValue(s[2]).Some?)
    requires !(|s| > 5 && s[1] == 'u' && forall k :: 2 <= k < 6 ==> HexValue(s[k]).Some?)
    ensures DecodeUrl(s, plus) == "%" + DecodeUrl(s[1..], plus)
  {
    hide HexValue;
    if FromHex(s, 1, 2).Some? { HexDigits(s, 1, 2); }
    if FromHex(s, 2, 4).Some? { HexDigits(s, 2, 4); }
  }

  lemma {:induction false} HexDigits(s: string, i: nat, cnt: nat)
    requires FromHex(s, i, cnt).Some?
    ensures forall k :: i <= k < i + cnt ==> k < |s| && HexValue(s[k]).Some?
  {
    hide HexValue;
    if cnt > 0 { HexDigits(s, i, cnt - 1); }
  }
}
