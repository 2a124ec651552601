/** Base64 with one 32-bit accumulator that is never masked, against the groups of RFC 4648, section 4. */
module Base64 {
  import opened Text
  import opened Wrappers

  type Byte = b: int | 0 <= b < 256

  const OTHER := "0123456789+/"
  const LOOKUP := UPPER + LOWER + OTHER

  type Sextet = d: int | 0 <= d < 64

  function Digit(d: Sextet): char
  {
    if d < 26 then ('A' as int + d) as char
    else if d < 52 then ('a' as int + d - 26) as char
    else if d < 62 then ('0' as int + d - 52) as char
    else if d == 62 then '+'
    else '/'
  }

  lemma LookupIsDigit(d: Sextet)
    ensures |LOOKUP| == 64 && LOOKUP[d] == Digit(d)
  {
    UpperIsDigit(if d < 26 then d else 0);
    LowerIsDigit(if 26 <= d < 52 then d else 26);
    OtherIsDigit(if 52 <= d then d else 52);
    hide UPPER, LOWER, OTHER, Digit;
  }

  lemma UpperIsDigit(d: Sextet)
    requires d < 26
    ensures |UPPER| == 26 && UPPER[d] == Digit(d)
  {
  }

  lemma LowerIsDigit(d: Sextet)
    requires 26 <= d < 52
    ensures |LOWER| == 26 && LOWER[d - 26] == Digit(d)
  {
  }

  lemma OtherIsDigit(d: Sextet)
    requires 52 <= d
    ensures |OTHER| == 12 && OTHER[d - 52] == Digit(d)
  {
  }

  /** A 32-bit `int`. */
  function Wrap(x: int): int
  {
    (x + 0x8000_0000) % 0x1_0000_0000 - 0x8000_0000
  }

  /** Groups of three bytes, the last one padded. */
  function Encode(bs: seq<Byte>): string
  {
    if |bs| == 0 then ""
    else if |bs| == 1 then [Digit(bs[0] / 4), Digit(bs[0] % 4 * 16), '=', '=']
    else if |bs| == 2 then [Digit(bs[0] / 4), Digit(bs[0] % 4 * 16 + bs[1] / 16), Digit(bs[1] % 16 * 4), '=']
    else Quad(bs[0], bs[1], bs[2]) + Encode(bs[3..])
  }

  function Quad(a: Byte, b: Byte, c: Byte): string
  {
    [Digit(a / 4), Digit(a % 4 * 16 + b / 16), Digit(b % 16 * 4 + c / 64), Digit(c % 64)]
  }

  lemma {:induction false} EncodedLength(bs: seq<Byte>)
    ensures |Encode(bs)| == 4 * ((|bs| + 2) / 3)
  {
    hide Digit;
    if |bs| > 2 {
      EncodedLength(bs[3..]);
      assert (|bs| + 2) / 3 == (|bs[3..]| + 2) / 3 + 1;
    }
  }

  function ValueOf(c: char): Option<Sextet>
  {
    if 'A' <= c <= 'Z' then Some(c as int - 'A' as int)
    else if 'a' <= c <= 'z' then Some(c as int - 'a' as int + 26)
    else if '0' <= c <= '9' then Some(c as int - '0' as int + 52)
    else if c == '+' then Some(62)
    else if c == '/' then Some(63)
    else None
  }

  lemma ValueOfDigit(d: Sextet)
    ensures ValueOf(Digit(d)) == Some(d) && Digit(d) != '='
  {
  }

  /** The strict decoder: unused bits must be zero. */
  function Decode(s: string): Option<seq<Byte>>
  {
    if s == "" then Some([])
    else if |s| < 4 || ValueOf(s[0]).None? || ValueOf(s[1]).None? then None
    else
      var (v0, v1) := (ValueOf(s[0]).value, ValueOf(s[1]).value);
      if s[2..] == "==" then (if v1 % 16 == 0 then Some([v0 * 4 + v1 / 16]) else None)
      else if ValueOf(s[2]).None? then None
      else
        var v2 := ValueOf(s[2]).value;
        if s[3..] == "=" then (if v2 % 4 == 0 then Some([v0 * 4 + v1 / 16, v1 % 16 * 16 + v2 / 4]) else None)
        else if ValueOf(s[3]).None? then None
        else
          var rest := Decode(s[4..]);
          if rest.None? then None
          else Some([v0 * 4 + v1 / 16, v1 % 16 * 16 + v2 / 4, v2 % 4 * 64 + ValueOf(s[3]).value] + rest.value)
  }

  /** A full group at the front. */
  lemma DecodeQuad(a: Byte, b: Byte, c: Byte, rest: string)
    ensures var s := Quad(a, b, c) + rest;
            Decode(s) == if Decode(rest).None? then None else Some([a, b, c] + Decode(rest).value)
  {
    hide Digit, ValueOf;
    ValueOfDigit(a / 4);
    ValueOfDigit(a % 4 * 16 + b / 16);
    ValueOfDigit(b % 16 * 4 + c / 64);
    ValueOfDigit(c % 64);
    var s := Quad(a, b, c) + rest;
    assert s[2..][0] == s[2] != '=' && s[3..][0] == s[3] != '=' && s[4..] == rest;
    var (v0, v1, v2, v3) := (a / 4, a % 4 * 16 + b / 16, b % 16 * 4 + c / 64, c % 64);
    assert ValueOf(s[0]) == Some(v0) && ValueOf(s[1]) == Some(v1) && ValueOf(s[2]) == Some(v2) && ValueOf(s[3]) == Some(v3);
    assert v0 * 4 + v1 / 16 == a && v1 % 16 * 16 + v2 / 4 == b && v2 % 4 * 64 + v3 == c;
  }

  lemma DecodePadded(bs: seq<Byte>)
    requires 1 <= |bs| <= 2
    ensures Decode(Encode(bs)) == Some(bs)
  {
    hide Digit, ValueOf, Decode;
    if |bs| == 1 { DecodeLastOne(bs[0]); assert bs == [bs[0]]; }
    else { DecodeLastTwo(bs[0], bs[1]); assert bs == [bs[0], bs[1]]; }
  }

  lemma DecodeLastOne(a: Byte)
    ensures Decode([Digit(a / 4), Digit(a % 4 * 16), '=', '=']) == Some([a])
  {
    hide Digit, ValueOf, Decode;
    ValueOfDigit(a / 4);
    ValueOfDigit(a % 4 * 16);
    DecodeOne([Digit(a / 4), Digit(a % 4 * 16), '=', '='], a / 4, a % 4 * 16);
  }

  lemma DecodeLastTwo(a: Byte, b: Byte)
    ensures Decode([Digit(a / 4), Digit(a % 4 * 16 + b / 16), Digit(b % 16 * 4), '=']) == Some([a, b])
  {
    hide Digit, ValueOf, Decode;
    var (v0, v1, v2) := (a / 4, a % 4 * 16 + b / 16, b % 16 * 4);
    ValueOfDigit(v0);
    ValueOfDigit(v1);
    ValueOfDigit(v2);
    assert v0 * 4 + v1 / 16 == a && v1 % 16 * 16 + v2 / 4 == b && v2 % 4 == 0;
    DecodeTwo([Digit(v0), Digit(v1), Digit(v2), '='], v0, v1, v2);
  }

  lemma DecodeOne(s: string, v0: Sextet, v1: Sextet)
    requires |s| == 4 && ValueOf(s[0]) == Some(v0) && ValueOf(s[1]) == Some(v1) && s[2] == s[3] == '=' && v1 % 16 == 0
    ensures Decode(s) == Some([v0 * 4 + v1 / 16])
  {
    hide ValueOf;
    assert s[2..] == "==";
  }

  lemma DecodeTwo(s: string, v0: Sextet, v1: Sextet, v2: Sextet)
    requires |s| == 4 && ValueOf(s[0]) == Some(v0) && ValueOf(s[1]) == Some(v1) && ValueOf(s[2]) == Some(v2)
    requires s[2] != '=' && s[3] == '=' && v2 % 4 == 0
    ensures Decode(s) == Some([v0 * 4 + v1 / 16, v1 % 16 * 16 + v2 / 4])
  {
    hide ValueOf;
    assert s[2..][0] == s[2] && s[3..] == "=";
  }

  /** Decoding gives back every byte string. */
  lemma {:induction false} DecodeEncoded(bs: seq<Byte>)
    ensures Decode(Encode(bs)) == Some(bs)
  {
    hide Decode;
    if |bs| == 0 {
      DecodeEmpty();
    } else if |bs| <= 2 {
      DecodePadded(bs);
    } else {
      DecodeEncoded(bs[3..]);
      hide Quad;
      DecodeQuad(bs[0], bs[1], bs[2], Encode(bs[3..]));
      assert bs == [bs[0], bs[1], bs[2]] + bs[3..];
    }
  }

  lemma DecodeEmpty()
    ensures Decode("") == Some([]) && Encode([]) == ""
  {
  }

  /** `val >> shift`, of which six bits are taken. */
  function Bits(val: int, shift: nat): Sextet
    requires shift <= 6
  {
    val / Power2(shift) % 64
  }

  function Power2(n: nat): (p: nat)
    ensures p > 0
  {
    if n == 0 then 1 else 2 * Power2(n - 1)
  }

  /** The digits the inner loop puts out. */
  function Drain(val: int, valb: int): string
    requires valb <= 6
    decreases valb + 6
  {
    if valb < 0 then "" else [Digit(Bits(val, valb))] + Drain(val, valb - 6)
  }

  /** Overflow takes away multiples of 2 to the 32. */
  lemma WrapMultiple(y: int) returns (k: int)
    ensures Wrap(y) == y - 0x1_0000_0000 * k
  {
    k := (y + 0x8000_0000) / 0x1_0000_0000;
  }

  lemma Modulo65536(x: int, high: int, low: int)
    requires x == 0x1_0000 * high + low && 0 <= low < 0x1_0000
    ensures x % 0x1_0000 == low
  {
  }

  /** The accumulator keeps its low bits whatever overflows. */
  lemma WrapKeepsLow(x: int, a: Byte, c: Byte)
    requires x % 256 == a
    ensures Wrap(x * 256 + c) % 0x1_0000 == a * 256 + c
  {
    var q := x / 256;
    var k := WrapMultiple(x * 256 + c);
    hide Wrap;
    Modulo65536(Wrap(x * 256 + c), q - 0x1_0000 * k, a * 256 + c);
  }

  lemma Powers()
    ensures Power2(0) == 1 && Power2(2) == 4 && Power2(4) == 16 && Power2(6) == 64
  {
    assert Power2(1) == 2 && Power2(3) == 8 && Power2(5) == 32;
  }

  lemma BitsAt(val: int)
    ensures Bits(val, 0) == val % 64 && Bits(val, 2) == val / 4 % 64
    ensures Bits(val, 4) == val / 16 % 64 && Bits(val, 6) == val / 64 % 64
  {
    Powers();
    hide Power2;
  }

  lemma Modulo64(x: int, high: int, low: int)
    requires x == 64 * high + low && 0 <= low < 64
    ensures x % 64 == low
  {
  }

  lemma Shift2(q: int, a: Byte, c: Byte)
    ensures (0x1_0000 * q + (a * 256 + c)) / 4 % 64 == c / 4
  {
    var val := 0x1_0000 * q + (a * 256 + c);
    assert val == 4 * (64 * (256 * q + a) + c / 4) + c % 4;
    Modulo64(val / 4, 256 * q + a, c / 4);
  }

  lemma Shift4(q: int, a: Byte, c: Byte)
    ensures (0x1_0000 * q + (a * 256 + c)) / 16 % 64 == a % 4 * 16 + c / 16
  {
    var val := 0x1_0000 * q + (a * 256 + c);
    var (a1, a0) := (a / 4, a % 4);
    assert val == 16 * (64 * (64 * q + a1) + (a0 * 16 + c / 16)) + c % 16;
    Modulo64(val / 16, 64 * q + a1, a0 * 16 + c / 16);
  }

  lemma Shift6(q: int, a: Byte, c: Byte)
    ensures (0x1_0000 * q + (a * 256 + c)) / 64 % 64 == a % 16 * 4 + c / 64
  {
    var val := 0x1_0000 * q + (a * 256 + c);
    var (a1, a0) := (a / 16, a % 16);
    assert val == 64 * (64 * (16 * q + a1) + (a0 * 4 + c / 64)) + c % 64;
    Modulo64(val / 64, 16 * q + a1, a0 * 4 + c / 64);
  }

  lemma AddMultiple64(x: int, y: int)
    ensures (64 * x + y) % 64 == y % 64
  {
    assert 64 * x + y == 64 * (x + y / 64) + y % 64;
  }

  lemma AddMultiple256(x: int, y: int)
    ensures (256 * x + y) % 256 == y % 256
  {
    assert 256 * x + y == 256 * (x + y / 256) + y % 256;
  }

  lemma Shift0(q: int, a: Byte, c: Byte)
    ensures (0x1_0000 * q + (a * 256 + c)) % 64 == c % 64 && (0x1_0000 * q + (a * 256 + c)) % 256 == c
  {
    AddMultiple64(1024 * q + 4 * a, c);
    AddMultiple256(256 * q + a, c);
  }

  /** The six bits below each shift, when the last two bytes were `a` and `c`. */
  lemma LowBits(val: int, a: Byte, c: Byte)
    requires val % 0x1_0000 == a * 256 + c
    ensures Bits(val, 2) == c / 4
    ensures Bits(val, 4) == a % 4 * 16 + c / 16
    ensures Bits(val, 6) == a % 16 * 4 + c / 64
    ensures Bits(val, 0) == c % 64
    ensures val % 256 == c
  {
    hide Bits, Power2;
    var q := val / 0x1_0000;
    assert val == 0x1_0000 * q + (a * 256 + c);
    BitsAt(val);
    Shift0(q, a, c);
    Shift2(q, a, c);
    Shift4(q, a, c);
    Shift6(q, a, c);
  }

  /** What is put out of an unfinished group. */
  function Started(group: seq<Byte>): string
    requires |group| < 3
  {
    if |group| == 0 then ""
    else if |group| == 1 then [Digit(group[0] / 4)]
    else [Digit(group[0] / 4), Digit(group[0] % 4 * 16 + group[1] / 16)]
  }

  lemma DrainCases(val: int)
    ensures Drain(val, 2) == [Digit(Bits(val, 2))] && Drain(val, 4) == [Digit(Bits(val, 4))]
    ensures Drain(val, 6) == [Digit(Bits(val, 6)), Digit(Bits(val, 0))]
  {
    hide Bits, Digit;
    assert Drain(val, -4) == Drain(val, -2) == Drain(val, -6) == "";
    assert Drain(val, 0) == [Digit(Bits(val, 0))];
  }

  /** Putting one more byte into a group. */
  lemma GroupGrows(group: seq<Byte>, c: Byte, a: Byte, val: int)
    requires |group| < 3 && val % 0x1_0000 == a * 256 + c && (group != [] ==> a == group[|group| - 1])
    ensures var out := Started(group) + Drain(val, 2 * |group| + 2);
            out == if |group| < 2 then Started(group + [c]) else Quad(group[0], group[1], c)
    ensures val % 256 == c
  {
    hide Bits, Digit, Drain;
    LowBits(val, a, c);
    DrainCases(val);
  }

  lemma LastBits(val: int, a: Byte)
    requires val % 256 == a
    ensures Bits(Wrap(val * 256), 4) == a % 4 * 16 && Bits(Wrap(val * 256), 6) == a % 16 * 4
  {
    hide Bits, Wrap;
    WrapKeepsLow(val, a, 0);
    LowBits(Wrap(val * 256), a, 0);
  }

  /** What the last, padded group adds. */
  lemma EndsOne(a: Byte, val: int)
    requires val % 256 == a
    ensures Encode([a]) == (Started([a]) + [Digit(Bits(Wrap(val * 256), 4))]) + "=="
  {
    LastBits(val, a);
    hide Digit, Bits, Wrap;
  }

  lemma EndsTwo(a: Byte, b: Byte, val: int)
    requires val % 256 == b
    ensures Encode([a, b]) == (Started([a, b]) + [Digit(Bits(Wrap(val * 256), 6))]) + "="
  {
    LastBits(val, b);
    hide Digit, Bits, Wrap;
  }

  /** The state between two bytes: `done` is out for the groups before, and `group` has begun. */
  ghost predicate Between(input: seq<Byte>, i: nat, done: string, group: seq<Byte>)
  {
    && |group| < 3 && |group| <= i <= |input| && group == input[i - |group|..i] && |done| % 4 == 0
    && done + Encode(input[i - |group|..]) == Encode(input)
  }

  lemma BetweenMoves(input: seq<Byte>, i: nat, done: string, group: seq<Byte>)
    requires Between(input, i, done, group) && i < |input|
    ensures |group| < 2 ==> Between(input, i + 1, done, group + [input[i]])
    ensures |group| == 2 ==> Between(input, i + 1, done + Quad(group[0], group[1], input[i]), [])
  {
    hide Quad;
    if |group| == 2 {
      var rest := input[i - 2..];
      assert rest[3..] == input[i + 1..] && rest[0] == group[0] && rest[1] == group[1] && rest[2] == input[i];
      QuadLength(group[0], group[1], input[i]);
    }
  }

  /** The inner loop. */
  method PutDigits(out: string, val: int, valb: int) returns (out': string, valb': int)
    requires valb == 2 || valb == 4 || valb == 6
    ensures out' == out + Drain(val, valb) && valb' == if valb == 6 then -6 else valb - 6
  {
    hide Bits, Digit, Drain;
    out', valb' := out, valb;
    while valb' >= 0
      invariant valb' == valb || valb' == valb - 6 || (valb == 6 && valb' == -6)
      invariant out' + Drain(val, valb') == out + Drain(val, valb)
      decreases valb' + 6
    {
      LookupIsDigit(Bits(val, valb'));
      DrainStep(val, valb', out');
      out' := out' + [LOOKUP[Bits(val, valb')]];
      valb' := valb' - 6;
    }
    DrainStep(val, valb', out');
  }

  /** The loop's body: one more byte. */
  method TakeByte(out: string, val: int, valb: int, c: Byte, ghost done: string, ghost group: seq<Byte>)
    returns (out': string, val': int, valb': int)
    requires |group| < 3 && valb == -6 + 2 * |group| && (group != [] ==> val % 256 == group[|group| - 1])
    requires out == done + Started(group)
    ensures val' % 256 == c && valb' == if |group| == 2 then -6 else valb + 2
    ensures out' == if |group| < 2 then done + Started(group + [c]) else done + Quad(group[0], group[1], c)
  {
    hide Bits, Digit, Wrap, Started, Drain, Quad;
    ghost var a := val % 256;
    WrapKeepsLow(val, a, c);
    val' := Wrap(val * 256 + c);
    GroupGrows(group, c, a, val');
    out', valb' := PutDigits(out, val', valb + 8);
    assert (done + Started(group)) + Drain(val', valb + 8) == done + (Started(group) + Drain(val', valb + 8));
  }

  method Base64Encode(input: seq<Byte>) returns (out: string)
    ensures out == Encode(input)
    ensures |out| == 4 * ((|input| + 2) / 3)
  {
    hide Bits, Digit, Wrap, Encode, Started, Drain, Quad, Between;
    out := "";
    var val, valb := 0, -6;
    ghost var done, group: seq<Byte> := "", [];
    StartsEmpty(input);
    for i := 0 to |input|
      invariant Between(input, i, done, group) && |group| < 3
      invariant valb == -6 + 2 * |group| && (group != [] ==> val % 256 == group[|group| - 1])
      invariant out == done + Started(group)
    {
      var c := input[i];
      out, val, valb := TakeByte(out, val, valb, c, done, group);
      BetweenMoves(input, i, done, group);
      if |group| < 2 {
        group := group + [c];
      } else {
        done, group := done + Quad(group[0], group[1], c), [];
        StartsEmpty(input);
      }
    }
    EncodedLength(input);
    EndsBetween(input, done, group);
    Closing(done, group, val);
    if valb > -6 {
      LookupIsDigit(Bits(Wrap(val * 256), valb + 8));
      out := out + [LOOKUP[Bits(Wrap(val * 256), valb + 8)]];
    }
    out := Pad(out);
  }

  /** The last digit, if a group is unfinished, and the padding. */
  lemma Closing(done: string, group: seq<Byte>, val: int)
    requires |group| < 3 && |done| % 4 == 0 && (group != [] ==> val % 256 == group[|group| - 1])
    ensures var out := done + Started(group)
                       + if group == [] then "" else [Digit(Bits(Wrap(val * 256), 2 * |group| + 2))];
            |out| % 4 != 1 && out + Padding(|out|) == done + Encode(group)
  {
    hide Bits, Digit, Wrap, Encode, Started;
    StartedLength(group);
    if |group| == 1 {
      EndsOne(group[0], val);
      assert group == [group[0]];
    } else if |group| == 2 {
      EndsTwo(group[0], group[1], val);
      assert group == [group[0], group[1]];
    }
  }

  /** The padding loop. */
  method Pad(out: string) returns (out': string)
    requires |out| % 4 != 1
    ensures out' == out + Padding(|out|)
  {
    out' := out;
    while |out'| % 4 != 0
      invariant |out'| % 4 != 1 && out' + Padding(|out'|) == out + Padding(|out|)
      decreases |Padding(|out'|)|
    {
      PaddingStep(out');
      out' := out' + "=";
    }
  }

  /** The padding for a length. */
  function Padding(n: nat): string
  {
    if n % 4 == 3 then "=" else if n % 4 == 2 then "==" else ""
  }

  lemma PaddingStep(out: string)
    requires |out| % 4 == 2 || |out| % 4 == 3
    ensures out + Padding(|out|) == (out + "=") + Padding(|out + "="|)
    ensures |out + "="| % 4 == (|out| + 1) % 4 && |out + "="| % 4 != 1
  {
  }

  lemma StartedLength(group: seq<Byte>)
    requires |group| < 3
    ensures |Started(group)| == |group| && Encode([]) == ""
  {
  }

  lemma StartsEmpty(input: seq<Byte>)
    ensures Started([]) == "" && Between(input, 0, "", [])
  {
    assert "" + Encode(input) == Encode(input) && input[0..] == input;
  }

  lemma EndsBetween(input: seq<Byte>, done: string, group: seq<Byte>)
    requires Between(input, |input|, done, group)
    ensures done + Encode(group) == Encode(input) && |done| % 4 == 0
  {
    assert input[|input| - |group|..] == group;
  }

  lemma DrainStep(val: int, valb: int, out: string)
    requires valb <= 6
    ensures out + Drain(val, valb)
         == if valb < 0 then out else (out + [Digit(Bits(val, valb))]) + Drain(val, valb - 6)
  {
  }

  lemma QuadLength(a: Byte, b: Byte, c: Byte)
    ensures |Quad(a, b, c)| == 4
  {
  }
}
