/** Range headers: printing and parsing them, and cutting a body to a single range. */
module Ranges {
  import opened Text
  import opened Wrappers
  import opened QueryString
  import opened Decimal

  const MAX_INT64 := 0x7fff_ffff_ffff_ffff

  type Int64 = n: int | -MAX_INT64 - 1 <= n <= MAX_INT64

  /** A bound of -1 is absent. */
  datatype Range = Range(first: Int64, last: Int64)

  /** std::to_string */
  function Show(n: int): string
  {
    if n < 0 then "-" + ShowNat(-n) else ShowNat(n)
  }

  /** The run of digits at the front. */
  function DigitRun(s: string): (n: nat)
    ensures n <= |s| && AllDigits(s[..n]) && (n < |s| ==> !IsDigit(s[n]))
  {
    if s != "" && IsDigit(s[0]) then
      assert s[..1 + DigitRun(s[1..])] == [s[0]] + s[1..][..DigitRun(s[1..])];
      1 + DigitRun(s[1..])
    else 0
  }

  lemma AllDigitsTail(s: string, n: nat)
    requires 0 < n <= |s| && AllDigits(s[..n])
    ensures AllDigits(s[1..][..n - 1])
  {
    var t := s[1..][..n - 1];
    forall i | 0 <= i < |t| ensures IsDigit(t[i]) { assert t[i] == s[..n][i + 1]; }
  }

  lemma {:induction false} DigitRunIs(s: string, n: nat)
    requires n <= |s| && AllDigits(s[..n]) && (n < |s| ==> !IsDigit(s[n]))
    ensures DigitRun(s) == n
  {
    if n > 0 {
      assert IsDigit(s[..n][0]);
      AllDigitsTail(s, n);
      DigitRunIs(s[1..], n - 1);
    } else if s != "" {
      assert !IsDigit(s[0]);
    }
  }

  /** The expression `(\d*)-(\d*)` on a whole text: its two groups. */
  function Item(t: string): (r: Option<(string, string)>)
    ensures r.Some? ==> AllDigits(r.value.0) && AllDigits(r.value.1)
  {
    var n := DigitRun(t);
    if n < |t| && t[n] == '-' && AllDigits(t[n + 1..]) then Some((t[..n], t[n + 1..])) else None
  }

  /** The expression for the whole list: items between commas, each but the first after white space. */
  predicate ListOk(s: string, first: bool)
    decreases |s|
  {
    var i := IndexOf(s, ',');
    && Item(if first then s[..i] else SkipSpaces(s[..i])).Some?
    && (i < |s| ==> ListOk(s[i + 1..], false))
  }

  const UNIT := "bytes="

  /** One group as a bound; stoll throws when it does not fit. */
  function Bound(digits: string): Option<Int64>
    requires AllDigits(digits)
  {
    var none: Int64 := -1;
    if digits == "" then Some(none)
    else if ReadNat(digits) > MAX_INT64 then None
    else
      var n: Int64 := ReadNat(digits);
      Some(n)
  }

  datatype Parsed = Parsed(ok: bool, ranges: seq<Range>)

  /** The ranges of the fields, up to the first that is backwards or does not fit. */
  function Collect(fields: seq<string>): Parsed
  {
    if fields == [] then Parsed(true, [])
    else
      var groups := Item(SkipSpaces(fields[0]));
      if groups.None? then Collect(fields[1..])
      else
        var (first, last) := (Bound(groups.value.0), Bound(groups.value.1));
        if first.None? || last.None? then Parsed(false, [])
        else if first.value != -1 && last.value != -1 && first.value > last.value then Parsed(false, [])
        else
          var rest := Collect(fields[1..]);
          Parsed(rest.ok, [Range(first.value, last.value)] + rest.ranges)
  }

  function ParseRange(s: string): Parsed
  {
    if StartsWith(s, UNIT) && ListOk(s[|UNIT|..], true) then Collect(Fields(s[|UNIT|..], ',')) else Parsed(false, [])
  }

  method ParseRangeHeader(s: string) returns (ok: bool, ranges: seq<Range>)
    ensures ok == ParseRange(s).ok && ranges == ParseRange(s).ranges
  {
    hide Fields, Item, ListOk, SkipSpaces, ReadNat;
    ok, ranges := true, [];
    if !StartsWith(s, UNIT) || !ListOk(s[|UNIT|..], true) { return false, []; }
    var fields := Split(s[|UNIT|..], ',');
    var i := 0;
    assert fields[0..] == fields;
    while i < |fields|
      invariant 0 <= i <= |fields|
      invariant ok && ParseRange(s).ok == Collect(fields[i..]).ok
      invariant ParseRange(s).ranges == ranges + Collect(fields[i..]).ranges
    {
      assert fields[i..][1..] == fields[i + 1..] && fields[i..][0] == fields[i];
      var groups := Item(SkipSpaces(fields[i]));
      if groups.Some? {
        var first: Int64, last: Int64 := -1, -1;
        if groups.value.0 != "" {
          if ReadNat(groups.value.0) > MAX_INT64 { return false, ranges; }
          first := ReadNat(groups.value.0);
        }
        if groups.value.1 != "" {
          if ReadNat(groups.value.1) > MAX_INT64 { return false, ranges; }
          last := ReadNat(groups.value.1);
        }
        if first != -1 && last != -1 && first > last { return false, ranges; }
        ranges := ranges + [Range(first, last)];
      }
      i := i + 1;
    }
  }

  function PrintRange(r: Range): string
  {
    (if r.first != -1 then Show(r.first) else "") + "-" + if r.last != -1 then Show(r.last) else ""
  }

  function PrintRanges(rs: seq<Range>): string
  {
    if rs == [] then ""
    else PrintRange(rs[0]) + if |rs| == 1 then "" else ", " + PrintRanges(rs[1..])
  }

  lemma {:induction false} PrintRangesSnoc(rs: seq<Range>, r: Range)
    ensures PrintRanges(rs + [r]) == PrintRanges(rs) + (if rs == [] then "" else ", ") + PrintRange(r)
  {
    hide PrintRange;
    if rs == [] {
      assert rs + [r] == [r];
    } else {
      assert (rs + [r])[1..] == rs[1..] + [r];
      PrintRangesSnoc(rs[1..], r);
      if |rs| == 1 {
        assert rs[1..] == [];
      }
      assert PrintRanges(rs + [r]) == PrintRange(rs[0]) + (", " + PrintRanges(rs[1..] + [r]));
    }
  }

  method MakeRangeHeader(ranges: seq<Range>) returns (field: string)
    ensures field == UNIT + PrintRanges(ranges)
  {
    hide PrintRanges, Show, UNIT;
    field := UNIT;
    NoRanges(ranges);
    for i := 0 to |ranges|
      invariant field == UNIT + PrintRanges(ranges[..i])
    {
      ghost var was := field;
      var r := ranges[i];
      if i != 0 { field := field + ", "; }
      if r.first != -1 { field := field + Show(r.first); }
      field := field + "-";
      if r.last != -1 { field := field + Show(r.last); }
      OneMore(ranges, i, was, field);
    }
    assert ranges[..|ranges|] == ranges;
  }

  lemma NoRanges(ranges: seq<Range>)
    ensures UNIT + PrintRanges(ranges[..0]) == UNIT
  {
  }

  lemma OneMore(ranges: seq<Range>, i: nat, was: string, field: string)
    requires i < |ranges| && was == UNIT + PrintRanges(ranges[..i])
    requires var r := ranges[i];
             field == was + (if i != 0 then ", " else "") + (if r.first != -1 then Show(r.first) else "") + "-"
                      + (if r.last != -1 then Show(r.last) else "")
    ensures field == UNIT + PrintRanges(ranges[..i + 1])
  {
    hide PrintRanges, Show, UNIT;
    var r := ranges[i];
    assert ranges[..i + 1] == ranges[..i] + [r];
    PrintRangesSnoc(ranges[..i], r);
    var sep := if i != 0 then ", " else "";
    var (a, b) := (if r.first != -1 then Show(r.first) else "", if r.last != -1 then Show(r.last) else "");
    assert was + sep + a + "-" + b == was + (sep + (a + "-" + b));
    var front := PrintRanges(ranges[..i]);
    assert UNIT + front + (sep + PrintRange(r)) == UNIT + (front + sep + PrintRange(r));
  }

  predicate Valid(r: Range)
  {
    -1 <= r.first && -1 <= r.last && (r.first != -1 && r.last != -1 ==> r.first <= r.last)
  }

  /** No bound prints with a sign. */
  predicate Unsigned(r: Range)
  {
    -1 <= r.first && -1 <= r.last
  }

  function Group(bound: Int64): string
  {
    if bound != -1 then Show(bound) else ""
  }

  lemma GroupOfBound(n: Int64)
    requires n >= -1
    ensures AllDigits(Group(n)) && Bound(Group(n)) == Some(n)
  {
    if n >= 0 { ReadShown(n); }
  }

  /** A bound below -1 prints with a sign in front. */
  lemma SignedGroup(n: Int64)
    requires n < -1
    ensures Group(n) != "" && Group(n)[0] == '-' && !AllDigits(Group(n))
  {
  }

  /** A group free of digits but for its sign is no digit run. */
  lemma ItemParts(a: string, b: string)
    requires AllDigits(a) || a[0] == '-'
    ensures Item(a + "-" + b) == if AllDigits(a) && AllDigits(b) then Some((a, b)) else None
  {
    var t := a + "-" + b;
    if AllDigits(a) {
      assert t[..|a|] == a && t[|a| + 1..] == b && t[|a|] == '-';
      DigitRunIs(t, |a|);
    } else {
      assert t[0] == '-' && t[1..][|a| - 1] == '-' && t[..0] == "";
      DigitRunIs(t, 0);
    }
  }

  lemma ItemOfPrinted(r: Range)
    ensures var t := PrintRange(r);
            Item(t) == if Unsigned(r) then Some((Group(r.first), Group(r.last))) else None
  {
    hide Item, Show;
    if r.first >= -1 { GroupOfBound(r.first); } else { SignedGroup(r.first); }
    if r.last >= -1 { GroupOfBound(r.last); } else { SignedGroup(r.last); }
    ItemParts(Group(r.first), Group(r.last));
  }

  /** What the text of a range is made of. */
  lemma {:induction false} ShownChars(n: nat)
    ensures forall c :: c in ShowNat(n) ==> IsDigit(c)
  {
    if n >= 10 { ShownChars(n / 10); }
  }

  lemma PrintedChars(r: Range)
    ensures var t := PrintRange(r);
            t != "" && forall k :: 0 <= k < |t| ==> t[k] == '-' || IsDigit(t[k])
  {
    var a: int, b: int := r.first, r.last;
    ShownChars(if a < 0 then -a else a);
    ShownChars(if b < 0 then -b else b);
    hide ShowNat;
    var t := PrintRange(r);
    forall k | 0 <= k < |t| ensures t[k] == '-' || IsDigit(t[k]) { assert t[k] in t; }
  }

  function Texts(rs: seq<Range>): seq<string>
  {
    if rs == [] then [] else [PrintRange(rs[0])] + Texts(rs[1..])
  }

  predicate ItemOk(piece: string, first: bool)
  {
    Item(if first then piece else SkipSpaces(piece)).Some?
  }

  lemma LastItem(piece: string, first: bool)
    requires piece != "" && forall k :: 0 <= k < |piece| ==> piece[k] != ','
    ensures (ListOk(piece, first) <==> ItemOk(piece, first)) && Fields(piece, ',') == Kept(piece)
  {
    hide Item, Kept, SkipSpaces;
    assert piece[..|piece|] == piece;
    IndexOfIs(piece, ',', |piece|);
    FieldsLast(piece, ',');
  }

  lemma NextItem(piece: string, rest: string, first: bool)
    requires forall k :: 0 <= k < |piece| ==> piece[k] != ','
    ensures var s := piece + ("," + rest);
            && (ListOk(s, first) <==> ItemOk(piece, first) && ListOk(rest, false))
            && Fields(s, ',') == Kept(piece) + Fields(rest, ',')
  {
    hide Item, Kept, SkipSpaces;
    var s := piece + ("," + rest);
    assert s[..|piece|] == piece && s[|piece|] == ',' && s[|piece| + 1..] == rest;
    assert forall k :: 0 <= k < |piece| ==> s[k] == piece[k];
    IndexOfIs(s, ',', |piece|);
  }

  /** The list as the two expressions see it, at the start or after a comma. */
  lemma {:induction false} ListOfPrinted(rs: seq<Range>, first: bool)
    requires rs != []
    ensures var s := (if first then "" else " ") + PrintRanges(rs);
            && (ListOk(s, first) <==> forall r :: r in rs ==> Unsigned(r))
            && Fields(s, ',') == Texts(rs)
    decreases |rs|
  {
    hide Item, Kept, SkipSpaces, PrintRange, ListOk, Fields, Unsigned;
    var (lead, t) := (if first then "" else " ", PrintRange(rs[0]));
    PrintedChars(rs[0]);
    ItemOfPrinted(rs[0]);
    LeadIsDropped(lead, t);
    assert "" + t == t == t + "";
    assert rs == [rs[0]] + rs[1..];
    if |rs| == 1 {
      assert PrintRanges(rs) == t && Texts(rs) == [t];
      LastItem(lead + t, first);
    } else {
      ListOfPrinted(rs[1..], false);
      NextItem(lead + t, " " + PrintRanges(rs[1..]), first);
      SpaceAfterComma(lead, t, PrintRanges(rs[1..]));
    }
  }

  lemma SpaceAfterComma(lead: string, t: string, rest: string)
    ensures lead + (t + (", " + rest)) == (lead + t) + ("," + (" " + rest))
  {
  }

  lemma LeadIsDropped(lead: string, t: string)
    requires lead == "" || lead == " "
    requires t != "" && forall k :: 0 <= k < |t| ==> t[k] == '-' || IsDigit(t[k])
    ensures Kept(lead + t) == [t] && SkipSpaces(lead + t) == t
  {
    assert !IsBlank(t[0]) && !IsBlank(t[|t| - 1]);
    TrimOfTrimmed(t);
    assert "" + t == t && (" " + t)[1..] == t && (" " + t)[0] == ' ';
  }

  lemma {:induction false} CollectOfPrinted(rs: seq<Range>)
    requires forall r :: r in rs ==> Unsigned(r)
    ensures var p := Collect(Texts(rs));
            p.ok <==> forall r :: r in rs ==> Valid(r)
    ensures (forall r :: r in rs ==> Valid(r)) ==> Collect(Texts(rs)).ranges == rs
    decreases |rs|
  {
    hide Item, PrintRange, Bound, Group;
    if rs != [] {
      var r := rs[0];
      PrintedChars(r);
      ItemOfPrinted(r);
      LeadIsDropped("", PrintRange(r));
      assert "" + PrintRange(r) == PrintRange(r);
      GroupOfBound(r.first);
      GroupOfBound(r.last);
      CollectOfPrinted(rs[1..]);
      assert rs == [r] + rs[1..];
      assert Texts(rs)[0] == PrintRange(r) && Texts(rs)[1..] == Texts(rs[1..]);
    }
  }

  /** A printed list reads back exactly when every range is valid. */
  lemma RangeRoundTrip(rs: seq<Range>)
    requires rs != []
    ensures ParseRange(UNIT + PrintRanges(rs)) == Parsed(true, rs) <==> forall r :: r in rs ==> Valid(r)
    ensures ParseRange(UNIT + PrintRanges(rs)).ok <==> forall r :: r in rs ==> Valid(r)
  {
    hide Collect, ListOk, Fields, PrintRanges, Texts;
    var s := UNIT + PrintRanges(rs);
    assert s[0..|UNIT|] == UNIT && s[|UNIT|..] == PrintRanges(rs) && "" + PrintRanges(rs) == PrintRanges(rs);
    ListOfPrinted(rs, true);
    if forall r :: r in rs ==> Unsigned(r) {
      CollectOfPrinted(rs);
    }
  }

  /** One range as anyone may write it: white space, which may not come first in the list, and two groups of digits. */
  datatype Written = Written(blank: string, first: string, last: string)

  predicate WrittenOk(w: Written)
  {
    AllSpace(w.blank) && AllDigits(w.first) && AllDigits(w.last)
  }

  function Write(w: Written): string
  {
    w.blank + (w.first + "-" + w.last)
  }

  function WriteAll(ws: seq<Written>): string
  {
    if ws == [] then "" else if |ws| == 1 then Write(ws[0]) else Write(ws[0]) + ("," + WriteAll(ws[1..]))
  }

  predicate Fits(digits: string)
    requires AllDigits(digits)
  {
    digits == "" || ReadNat(digits) <= MAX_INT64
  }

  /** Both bounds fit, and they do not cross. */
  predicate InOrder(w: Written)
    requires WrittenOk(w)
  {
    && Fits(w.first) && Fits(w.last)
    && (w.first != "" && w.last != "" ==> ReadNat(w.first) <= ReadNat(w.last))
  }

  function Meant(digits: string): Int64
    requires AllDigits(digits) && Fits(digits)
  {
    if digits == "" then -1 else ReadNat(digits)
  }

  function MeantAll(ws: seq<Written>): seq<Range>
    requires forall w :: w in ws ==> WrittenOk(w) && InOrder(w)
  {
    if ws == [] then []
    else
      assert WrittenOk(ws[0]) && InOrder(ws[0]);
      [Range(Meant(ws[0].first), Meant(ws[0].last))] + MeantAll(ws[1..])
  }

  /** Every list of such ranges is understood exactly when each is in order. */
  lemma WrittenIsRead(ws: seq<Written>)
    requires ws != [] && ws[0].blank == "" && forall w :: w in ws ==> WrittenOk(w)
    ensures ParseRange(UNIT + WriteAll(ws)).ok <==> forall w :: w in ws ==> InOrder(w)
    ensures (forall w :: w in ws ==> InOrder(w)) ==> ParseRange(UNIT + WriteAll(ws)).ranges == MeantAll(ws)
  {
    hide Collect, ListOk, Fields, WriteAll, Trimmings, InOrder, WrittenOk, MeantAll;
    var s := UNIT + WriteAll(ws);
    assert s[0..|UNIT|] == UNIT && s[|UNIT|..] == WriteAll(ws);
    ListOfWritten(ws, true);
    CollectOfWritten(ws);
  }

  /** The items as split leaves them. */
  function Trimmings(ws: seq<Written>): seq<string>
  {
    if ws == [] then [] else [Trim(Write(ws[0]))] + Trimmings(ws[1..])
  }

  lemma {:induction false} ListOfWritten(ws: seq<Written>, first: bool)
    requires ws != [] && (first ==> ws[0].blank == "") && forall w :: w in ws ==> WrittenOk(w)
    ensures ListOk(WriteAll(ws), first) && Fields(WriteAll(ws), ',') == Trimmings(ws)
    decreases |ws|
  {
    hide Item, Kept, SkipSpaces, Trim, ListOk, Fields, Write, WrittenOk;
    var w := ws[0];
    WrittenItem(w);
    if |ws| == 1 {
      assert ws[1..] == [];
      LastItem(Write(w), first);
    } else {
      ListOfWritten(ws[1..], false);
      NextItem(Write(w), WriteAll(ws[1..]), first);
    }
  }

  lemma WrittenItem(w: Written)
    requires WrittenOk(w)
    ensures var t := Write(w);
            && t != "" && (forall k :: 0 <= k < |t| ==> t[k] != ',')
            && Kept(t) == [Trim(t)]
            && Item(SkipSpaces(t)) == Some((w.first, w.last)) && Item(SkipSpaces(Trim(t))) == Some((w.first, w.last))
            && (w.blank == "" ==> Item(t) == Some((w.first, w.last)))
  {
    hide Item, SkipSpaces, Trim;
    var (t, x) := (Write(w), w.first + "-" + w.last);
    ItemParts(w.first, w.last);
    assert forall k :: 0 <= k < |x| ==> x[k] == '-' || IsDigit(x[k]);
    forall k | 0 <= k < |t| ensures t[k] != ',' {
      if k < |w.blank| { assert t[k] == w.blank[k] && IsSpace(w.blank[k]); } else { assert t[k] == x[k - |w.blank|]; }
    }
    SkipSpacesIs(w.blank, x);
    var rest := TrimOfItem(w.blank, x);
    SkipSpacesIs(rest, x);
    assert w.blank == "" ==> t == x;
  }

  lemma TrimOfItem(blank: string, x: string) returns (rest: string)
    requires AllSpace(blank) && x != "" && !IsBlank(x[0]) && !IsBlank(x[|x| - 1])
    ensures AllSpace(rest) && Trim(blank + x) == rest + x
  {
    rest := BlankDropped(blank, x);
    var t := rest + x;
    assert t[|t| - 1] == x[|x| - 1];
  }

  lemma {:induction false} BlankDropped(blank: string, x: string) returns (rest: string)
    requires AllSpace(blank) && x != "" && !IsBlank(x[0])
    ensures AllSpace(rest) && TrimLeft(blank + x) == rest + x
    decreases |blank|
  {
    rest := blank;
    if blank == "" {
      assert blank + x == x;
    } else if IsBlank(blank[0]) {
      assert (blank + x)[1..] == blank[1..] + x && (blank + x)[0] == blank[0];
      rest := BlankDropped(blank[1..], x);
    } else {
      assert (blank + x)[0] == blank[0];
    }
  }

  lemma {:induction false} CollectOfWritten(ws: seq<Written>)
    requires forall w :: w in ws ==> WrittenOk(w)
    ensures Collect(Trimmings(ws)).ok <==> forall w :: w in ws ==> InOrder(w)
    ensures (forall w :: w in ws ==> InOrder(w)) ==> Collect(Trimmings(ws)).ranges == MeantAll(ws)
    decreases |ws|
  {
    hide Item, Write, Trim, SkipSpaces, ReadNat, WrittenOk, InOrder;
    if ws != [] {
      var w := ws[0];
      WrittenItem(w);
      GroupsInOrder(w);
      CollectOfWritten(ws[1..]);
      assert ws == [w] + ws[1..];
      assert Trimmings(ws)[0] == Trim(Write(w)) && Trimmings(ws)[1..] == Trimmings(ws[1..]);
    }
  }

  lemma GroupsInOrder(w: Written)
    requires WrittenOk(w)
    ensures var (a, b) := (Bound(w.first), Bound(w.last));
            && (InOrder(w) <==> a.Some? && b.Some? && !(a.value != -1 && b.value != -1 && a.value > b.value))
            && (InOrder(w) ==> a.value == Meant(w.first) && b.value == Meant(w.last))
  {
    hide ReadNat;
  }

  /** Byte `i` of a body of `n` bytes lies in the range: all, a last part, or from the first bound to the last. */
  predicate Selected(r: Range, n: nat, i: int)
  {
    if r.first == -1 && r.last == -1 then true
    else if r.first == -1 then i >= n - r.last
    else if r.last == -1 then i >= r.first
    else r.first <= i <= r.last
  }

  function Pick(body: string, r: Range, i: nat): string
    requires i <= |body|
    decreases |body| - i
  {
    if i == |body| then ""
    else (if Selected(r, |body|, i) then [body[i]] else "") + Pick(body, r, i + 1)
  }

  lemma {:induction false} PickIsSlice(body: string, r: Range, i: nat, lo: nat, hi: nat)
    requires i <= |body| && lo <= hi <= |body|
    requires forall k :: 0 <= k < |body| ==> (Selected(r, |body|, k) <==> lo <= k < hi)
    ensures Pick(body, r, i) == if i <= lo then body[lo..hi] else if i <= hi then body[i..hi] else ""
    decreases |body| - i
  {
    if i < |body| {
      PickIsSlice(body, r, i + 1, lo, hi);
      if lo <= i < hi { assert body[i..hi] == [body[i]] + body[i + 1..hi]; }
    }
  }

  /** A 64-bit size. */
  function Size(n: int): nat
  {
    n % 0x1_0000_0000_0000_0000
  }

  lemma SizeIs(n: int)
    requires 0 <= n < 0x1_0000_0000_0000_0000
    ensures Size(n) == n
  {
  }

  lemma SizePlusOne(n: int)
    ensures Size(Size(n) + 1) == Size(n + 1)
  {
    var k := n / 0x1_0000_0000_0000_0000;
    assert n + 1 == 0x1_0000_0000_0000_0000 * k + (Size(n) + 1);
    AddMultiple(Size(n) + 1, k);
  }

  lemma AddMultiple(n: int, k: int)
    ensures Size(0x1_0000_0000_0000_0000 * k + n) == Size(n)
  {
    var q := n / 0x1_0000_0000_0000_0000;
    assert 0x1_0000_0000_0000_0000 * k + n == 0x1_0000_0000_0000_0000 * (k + q) + Size(n);
  }

  /** The bounds a range stands for on a body of that length; they may cross. */
  function Bounds(r: Range, contentLength: nat): (int, int)
  {
    if r.first == -1 && r.last == -1 then (0, contentLength - 1)
    else if r.first == -1 then (if contentLength > r.last then contentLength - r.last else 0, contentLength - 1)
    else (r.first, if r.last == -1 then contentLength - 1 else r.last)
  }

  /** The length wraps when the bounds cross. */
  method GetRangeOffsetAndLength(r: Range, contentLength: nat) returns (offset: nat, length: nat)
    requires contentLength <= MAX_INT64 && Unsigned(r)
    ensures var (first, last) := Bounds(r, contentLength); offset == first && length == Size(last - first + 1)
  {
    hide Size;
    if r.first == -1 && r.last == -1 {
      SizeIs(contentLength);
      return 0, contentLength;
    }
    var first: int, last: int := r.first, r.last;
    if first == -1 {
      first := if contentLength > last then contentLength - last else 0;
      last := contentLength - 1;
    }
    if last == -1 { last := contentLength - 1; }
    SizeIs(first);
    SizePlusOne(last - first);
    return Size(first), Size(Size(last - first) + 1);
  }

  /** A response to a request for one range: the selected bytes, or 416 when there are none. An empty body stays as it
      is. */
  method ApplyRange(body: string, r: Range) returns (unsatisfiable: bool, part: string)
    requires Valid(r) && |body| <= MAX_INT64
    ensures unsatisfiable <==> body != "" && forall i :: 0 <= i < |body| ==> !Selected(r, |body|, i)
    ensures part == Pick(body, r, 0)
  {
    hide Size;
    if body == "" { return false, ""; }
    var offset, length := GetRangeOffsetAndLength(r, |body|);
    if offset < |body| {
      unsatisfiable := false;
      SizeIs(Bounds(r, |body|).1 - offset + 1);
      var end := if length < |body| - offset then offset + length else |body|;
      part := body[offset..end];
      assert Selected(r, |body|, offset);
      PickIsSlice(body, r, 0, offset, end);
    } else {
      unsatisfiable, part := true, "";
      PickIsSlice(body, r, 0, 0, 0);
    }
  }
}
