/** Decimal numbers: what is printed and what the digits are worth. */
module Decimal {
  import opened Text

  predicate IsDigit(c: char)
  {
    '0' <= c <= '9'
  }

  predicate AllDigits(s: string)
  {
    forall i :: 0 <= i < |s| ==> IsDigit(s[i])
  }

  function ShowNat(n: nat): string
  {
    (if n < 10 then "" else ShowNat(n / 10)) + [('0' as int + n % 10) as char]
  }

  function ReadNat(s: string): nat
    requires AllDigits(s)
  {
    if s == "" then 0 else 10 * ReadNat(s[..|s| - 1]) + (s[|s| - 1] as int - '0' as int)
  }

  /** The notation: ten digits, each place worth ten of the next. */
  lemma ShowNatIs(n: nat, d: nat)
    requires d < 10
    ensures ShowNat(10 * n + d) == (if n == 0 then "" else ShowNat(n)) + ["0123456789"[d]]
    ensures IsDigit("0123456789"[d]) && ReadNat(["0123456789"[d]]) == d
  {
    assert "0123456789"[d] == ('0' as int + d) as char;
    assert ["0123456789"[d]][..0] == "";
  }

  lemma {:induction false} ReadShown(n: nat)
    ensures ShowNat(n) != "" && AllDigits(ShowNat(n)) && ReadNat(ShowNat(n)) == n
  {
    var (front, c) := (if n < 10 then "" else ShowNat(n / 10), ('0' as int + n % 10) as char);
    if n >= 10 { ReadShown(n / 10); }
    assert ShowNat(n) == front + [c] && (front + [c])[..|front|] == front;
  }

  /** The digits at the front, counted on from `acc`. */
  function DigitsValue(s: string, acc: nat): nat
    decreases |s|
  {
    if s != "" && IsDigit(s[0]) then DigitsValue(s[1..], 10 * acc + (s[0] as int - '0' as int)) else acc
  }

  lemma {:induction false} DigitsValueIs(before: string, s: string, tail: string)
    requires AllDigits(before) && AllDigits(s) && (tail != "" ==> !IsDigit(tail[0]))
    ensures AllDigits(before + s)
    ensures DigitsValue(s + tail, ReadNat(before)) == ReadNat(before + s)
    decreases |s|
  {
    if s == "" {
      assert before + s == before && s + tail == tail;
    } else {
      var more := before + [s[0]];
      assert more[..|before|] == before;
      assert (s + tail)[0] == s[0] && (s + tail)[1..] == s[1..] + tail;
      assert more + s[1..] == before + s;
      DigitsValueIs(more, s[1..], tail);
    }
  }

  /** A printed number is worth what was printed, whatever follows its digits. */
  lemma ShownIsRead(n: nat, tail: string)
    requires tail != "" ==> !IsDigit(tail[0])
    ensures DigitsValue(ShowNat(n) + tail, 0) == n
  {
    ReadShown(n);
    DigitsValueIs("", ShowNat(n), tail);
    assert "" + ShowNat(n) == ShowNat(n);
  }
}
