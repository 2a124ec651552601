/** The header block of urdl's HTTP client: a machine over characters, against the grammar of printed fields. */
module HttpHeaders {
  import opened Text
  import opened Wrappers
  import opened Decimal

  /** Bytes above 127 are negative as a `char` of the source. */
  predicate IsChar(c: char)
  {
    c as int <= 127
  }

  predicate IsControl(c: char)
  {
    c as int <= 31 || c as int == 127
  }

  predicate IsSpecial(c: char)
  {
    c in "()<>@,;:\\\"/[]?={} \t"
  }

  predicate IsTokenChar(c: char)
  {
    IsChar(c) && !IsControl(c) && !IsSpecial(c)
  }

  /** The characters of a field name: letters, digits and fifteen marks. */
  lemma TokenCharIs(c: char)
    ensures IsTokenChar(c) <==> c in UPPER || c in LOWER || c in DIGITS || c in "!#$%&'*+-.^_`|~"
  {
    hide IsTokenChar, UPPER, LOWER, DIGITS;
    UpperLetters(c);
    LowerLetters(c);
    Digits(c);
    AlnumIsToken(c);
    MarkIsToken(c);
  }

  predicate IsAlnum(c: char)
  {
    'A' <= c <= 'Z' || 'a' <= c <= 'z' || '0' <= c <= '9'
  }

  lemma AlnumIsToken(c: char)
    ensures IsAlnum(c) ==> IsTokenChar(c)
  {
  }

  lemma MarkIsToken(c: char)
    ensures !IsAlnum(c) ==> (IsTokenChar(c) <==> c in "!#$%&'*+-.^_`|~")
  {
  }

  predicate IsToken(s: string)
  {
    forall i :: 0 <= i < |s| ==> IsTokenChar(s[i])
  }

  predicate IsText(s: string)
  {
    forall i :: 0 <= i < |s| ==> !IsControl(s[i])
  }

  predicate AllBlank(s: string)
  {
    forall i :: 0 <= i < |s| ==> IsBlank(s[i])
  }

  /** What the caller learns of the block. */
  datatype Out = Out(contentType: string, contentLength: nat, location: string)

  /** `atoi`, converted to a 64-bit size. */
  function SizeOf(s: string): nat
  {
    var t := SkipSpaces(s);
    if t != "" && t[0] == '-' then
      var v := DigitsValue(t[1..], 0) % 0x1_0000_0000_0000_0000;
      if v == 0 then 0 else 0x1_0000_0000_0000_0000 - v
    else if t != "" && t[0] == '+' then DigitsValue(t[1..], 0)
    else DigitsValue(t, 0)
  }

  const CONTENT_TYPE := "Content-Type"
  const CONTENT_LENGTH := "Content-Length"
  const LOCATION := "Location"

  function CheckHeader(name: string, value: string, out: Out): Out
  {
    if EqualIgnoringCase(name, CONTENT_TYPE) then out.(contentType := value)
    else if EqualIgnoringCase(name, CONTENT_LENGTH) then out.(contentLength := SizeOf(value))
    else if EqualIgnoringCase(name, LOCATION) then out.(location := value)
    else out
  }

  datatype Place =
    | FirstLineStart | LineStart | Lws | Name | SpaceBeforeValue | Value | Linefeed | FinalLinefeed | Fail

  datatype State = State(place: Place, name: string, value: string, out: Out)

  function Step(s: State, c: char): State
    requires !s.place.FinalLinefeed? && !s.place.Fail?
  {
    match s.place
    case FirstLineStart =>
      if c == CR then s.(place := FinalLinefeed)
      else if !IsTokenChar(c) then s.(place := Fail)
      else s.(place := Name, name := s.name + [c])
    case LineStart =>
      if c == CR then State(FinalLinefeed, "", "", CheckHeader(s.name, s.value, s.out))
      else if IsBlank(c) then s.(place := Lws)
      else if !IsTokenChar(c) then s.(place := Fail)
      else State(Name, [c], "", CheckHeader(s.name, s.value, s.out))
    case Lws =>
      if c == CR then s.(place := Linefeed)
      else if IsBlank(c) then s
      else if IsControl(c) then s.(place := Fail)
      else s.(place := Value, value := s.value + [c])
    case Name =>
      if c == ':' then s.(place := SpaceBeforeValue)
      else if !IsTokenChar(c) then s.(place := Fail)
      else s.(name := s.name + [c])
    case SpaceBeforeValue => s.(place := if c == ' ' then Value else Fail)
    case Value =>
      if c == CR then s.(place := Linefeed)
      else if IsControl(c) then s.(place := Fail)
      else s.(value := s.value + [c])
    case Linefeed => s.(place := if c == LF then LineStart else Fail)
  }

  datatype Result = Result(accepted: bool, out: Out)

  function Run(s: State, input: string): Result
    decreases |input|
  {
    if input == "" || s.place.Fail? then Result(false, s.out)
    else if s.place.FinalLinefeed? then Result(input[0] == LF, s.out)
    else Run(Step(s, input[0]), input[1..])
  }

  function Start(out: Out): State
  {
    State(FirstLineStart, "", "", out)
  }

  method CheckHeaderField(name: string, value: string, contentType: string, contentLength: nat, location: string)
    returns (contentType': string, contentLength': nat, location': string)
    ensures Out(contentType', contentLength', location')
         == CheckHeader(name, value, Out(contentType, contentLength, location))
  {
    contentType', contentLength', location' := contentType, contentLength, location;
    if EqualIgnoringCase(name, CONTENT_TYPE) {
      contentType' := value;
    } else if EqualIgnoringCase(name, CONTENT_LENGTH) {
      contentLength' := SizeOf(value);
    } else if EqualIgnoringCase(name, LOCATION) {
      location' := value;
    }
  }

  /** One more line of a field's value: white space, which is dropped, and text. */
  datatype Fold = Fold(blank: string, text: string)

  datatype Field = Field(name: string, first: string, folds: seq<Fold>)

  /** A block with what follows it. */
  datatype Block = Block(fields: seq<Field>, tail: string)

  predicate FoldOk(f: Fold)
  {
    && f.blank != "" && AllBlank(f.blank)
    && IsText(f.text) && (f.text == "" || !IsBlank(f.text[0]))
  }

  predicate FieldOk(f: Field)
  {
    f.name != "" && IsToken(f.name) && IsText(f.first) && forall i :: 0 <= i < |f.folds| ==> FoldOk(f.folds[i])
  }

  function PrintFolds(fs: seq<Fold>): string
  {
    if fs == [] then "" else fs[0].blank + (fs[0].text + (CRLF + PrintFolds(fs[1..])))
  }

  function PrintField(f: Field): string
  {
    f.name + (": " + (f.first + (CRLF + PrintFolds(f.folds))))
  }

  function PrintFields(fs: seq<Field>): string
  {
    if fs == [] then "" else PrintField(fs[0]) + PrintFields(fs[1..])
  }

  predicate IsBlock(b: Block, input: string)
  {
    && (forall i :: 0 <= i < |b.fields| ==> FieldOk(b.fields[i]))
    && input == PrintFields(b.fields) + (CRLF + b.tail)
  }

  function FoldText(fs: seq<Fold>): string
  {
    if fs == [] then "" else fs[0].text + FoldText(fs[1..])
  }

  /** The unfolded value. */
  function ValueOf(f: Field): string
  {
    f.first + FoldText(f.folds)
  }

  /** The value of the last field of that name, in any case. */
  function LastValue(fs: seq<Field>, name: string): Option<string>
  {
    if fs == [] then None
    else
      var later := LastValue(fs[1..], name);
      if later.Some? then later
      else if EqualIgnoringCase(fs[0].name, name) then Some(ValueOf(fs[0]))
      else None
  }

  function CheckAll(fs: seq<Field>, out: Out): Out
  {
    if fs == [] then out else CheckAll(fs[1..], CheckHeader(fs[0].name, ValueOf(fs[0]), out))
  }

  predicate HoldsLast(fs: seq<Field>, before: Out, after: Out)
  {
    && (var v := LastValue(fs, CONTENT_TYPE); after.contentType == if v.Some? then v.value else before.contentType)
    && (var v := LastValue(fs, LOCATION); after.location == if v.Some? then v.value else before.location)
    && (var v := LastValue(fs, CONTENT_LENGTH);
        after.contentLength == if v.Some? then SizeOf(v.value) else before.contentLength)
  }

  lemma {:induction false} CheckAllIsLast(fs: seq<Field>, out: Out)
    ensures HoldsLast(fs, out, CheckAll(fs, out))
    decreases |fs|
  {
    hide SizeOf, ValueOf;
    if fs != [] {
      CheckAllIsLast(fs[1..], CheckHeader(fs[0].name, ValueOf(fs[0]), out));
      assert |CONTENT_TYPE| == 12 && |CONTENT_LENGTH| == 14 && |LOCATION| == 8;
    }
  }

  lemma {:induction false} RunText(s: State, t: string, rest: string)
    requires s.place.Value? && IsText(t)
    ensures Run(s, t + rest) == Run(s.(value := s.value + t), rest)
    decreases |t|
  {
    if t == "" {
      assert t + rest == rest && s.value + t == s.value;
    } else {
      assert (t + rest)[0] == t[0] && (t + rest)[1..] == t[1..] + rest;
      RunText(s.(value := s.value + [t[0]]), t[1..], rest);
      assert s.value + [t[0]] + t[1..] == s.value + t;
    }
  }

  lemma {:induction false} RunName(s: State, t: string, rest: string)
    requires s.place.Name? && IsToken(t)
    ensures Run(s, t + rest) == Run(s.(name := s.name + t), rest)
    decreases |t|
  {
    if t == "" {
      assert t + rest == rest && s.name + t == s.name;
    } else {
      assert (t + rest)[0] == t[0] && (t + rest)[1..] == t[1..] + rest;
      RunName(s.(name := s.name + [t[0]]), t[1..], rest);
      assert s.name + [t[0]] + t[1..] == s.name + t;
    }
  }

  lemma {:induction false} RunBlank(s: State, t: string, rest: string)
    requires s.place.Lws? && AllBlank(t)
    ensures Run(s, t + rest) == Run(s, rest)
    decreases |t|
  {
    if t == "" {
      assert t + rest == rest;
    } else {
      assert (t + rest)[0] == t[0] && (t + rest)[1..] == t[1..] + rest;
      RunBlank(s, t[1..], rest);
    }
  }

  lemma {:induction false} RunFolds(s: State, fs: seq<Fold>, rest: string)
    requires s.place.LineStart? && forall i :: 0 <= i < |fs| ==> FoldOk(fs[i])
    ensures Run(s, PrintFolds(fs) + rest) == Run(s.(value := s.value + FoldText(fs)), rest)
    decreases |fs|
  {
    hide Run, FoldOk;
    if fs == [] {
      assert "" + rest == rest && s.value + "" == s.value;
    } else {
      FoldsCons(s.value, fs, rest);
      hide PrintFolds, FoldText;
      RunFold(s, fs[0], PrintFolds(fs[1..]) + rest);
      RunFolds(s.(value := s.value + fs[0].text), fs[1..], rest);
    }
  }

  lemma FoldsCons(value: string, fs: seq<Fold>, rest: string)
    requires fs != []
    ensures PrintFolds(fs) + rest == fs[0].blank + (fs[0].text + (CRLF + (PrintFolds(fs[1..]) + rest)))
    ensures value + FoldText(fs) == value + fs[0].text + FoldText(fs[1..])
  {
  }

  lemma RunFold(s: State, f: Fold, rest: string)
    requires s.place.LineStart? && FoldOk(f)
    ensures Run(s, f.blank + (f.text + (CRLF + rest))) == Run(s.(value := s.value + f.text), rest)
  {
    var line := f.text + (CRLF + rest);
    var white := f.blank[1..];
    var lws := s.(place := Lws);
    assert (f.blank + line)[0] == f.blank[0] && (f.blank + line)[1..] == white + line;
    assert Run(s, f.blank + line) == Run(lws, white + line);
    RunBlank(lws, white, line);
    if f.text == "" {
      assert line == CRLF + rest && s.value + f.text == s.value;
      RunLineEnd(lws, rest);
    } else {
      var value := s.(place := Value, value := s.value + [f.text[0]]);
      assert line[0] == f.text[0] && line[1..] == f.text[1..] + (CRLF + rest);
      assert Run(lws, line) == Run(value, f.text[1..] + (CRLF + rest));
      RunText(value, f.text[1..], CRLF + rest);
      assert s.value + [f.text[0]] + f.text[1..] == s.value + f.text;
      RunLineEnd(s.(place := Value, value := s.value + f.text), rest);
    }
  }

  lemma RunLineEnd(s: State, rest: string)
    requires s.place.Lws? || s.place.Value?
    ensures Run(s, CRLF + rest) == Run(s.(place := LineStart), rest)
  {
    assert (CRLF + rest)[0] == CR && (CRLF + rest)[1..] == [LF] + rest;
    assert ([LF] + rest)[0] == LF && ([LF] + rest)[1..] == rest;
    assert Run(s.(place := Linefeed), [LF] + rest) == Run(s.(place := LineStart), rest);
  }

  /** The state at a line's start after a field. */
  function AfterField(s: State, f: Field): State
  {
    State(LineStart, f.name, ValueOf(f), if s.place.LineStart? then CheckHeader(s.name, s.value, s.out) else s.out)
  }

  lemma RunFieldName(s: State, f: Field, line: string)
    requires FieldOk(f) && (s.place.LineStart? || (s.place.FirstLineStart? && s.name == s.value == ""))
    ensures Run(s, f.name + (": " + line)) == Run(State(Value, f.name, "", AfterField(s, f).out), line)
  {
    hide CheckHeader, FoldOk;
    var out := AfterField(s, f).out;
    var (c, sep) := (f.name[0], ": " + line);
    assert (f.name + sep)[0] == c && (f.name + sep)[1..] == f.name[1..] + sep;
    assert "" + [c] == [c];
    assert Step(s, c) == State(Name, [c], "", out);
    assert Run(s, f.name + sep) == Run(State(Name, [c], "", out), f.name[1..] + sep);
    RunName(State(Name, [c], "", out), f.name[1..], sep);
    assert [c] + f.name[1..] == f.name;
    RunSeparator(State(Name, f.name, "", out), line);
  }

  lemma RunField(s: State, f: Field, rest: string)
    requires FieldOk(f) && (s.place.LineStart? || (s.place.FirstLineStart? && s.name == s.value == ""))
    ensures Run(s, PrintField(f) + rest) == Run(AfterField(s, f), rest)
  {
    hide Run, PrintFolds, FoldText, FoldOk, PrintField, CheckHeader;
    var out := AfterField(s, f).out;
    var folds := PrintFolds(f.folds) + rest;
    FieldText(f, folds, rest);
    RunFieldName(s, f, f.first + (CRLF + folds));
    RunText(State(Value, f.name, "", out), f.first, CRLF + folds);
    assert "" + f.first == f.first;
    RunLineEnd(State(Value, f.name, f.first, out), folds);
    RunFolds(State(LineStart, f.name, f.first, out), f.folds, rest);
  }

  lemma RunSeparator(s: State, rest: string)
    requires s.place.Name?
    ensures Run(s, ": " + rest) == Run(s.(place := Value), rest)
  {
    assert (": " + rest)[0] == ':' && (": " + rest)[1..] == " " + rest;
    assert (" " + rest)[0] == ' ' && (" " + rest)[1..] == rest;
    assert Run(s.(place := SpaceBeforeValue), " " + rest) == Run(s.(place := Value), rest);
  }

  lemma {:induction false} RunFields(s: State, fs: seq<Field>, tail: string)
    requires s.place.LineStart? && forall i :: 0 <= i < |fs| ==> FieldOk(fs[i])
    ensures Run(s, PrintFields(fs) + (CRLF + tail)) == Result(true, CheckAll(fs, CheckHeader(s.name, s.value, s.out)))
    decreases |fs|
  {
    if fs == [] {
      assert "" + (CRLF + tail) == CRLF + tail;
      RunBlockEnd(s, tail);
    } else {
      assert PrintFields(fs) + (CRLF + tail) == PrintField(fs[0]) + (PrintFields(fs[1..]) + (CRLF + tail));
      RunField(s, fs[0], PrintFields(fs[1..]) + (CRLF + tail));
      RunFields(AfterField(s, fs[0]), fs[1..], tail);
    }
  }

  lemma RunBlockEnd(s: State, tail: string)
    requires s.place.LineStart? || s.place.FirstLineStart?
    ensures Run(s, CRLF + tail)
         == Result(true, if s.place.LineStart? then CheckHeader(s.name, s.value, s.out) else s.out)
  {
    assert (CRLF + tail)[0] == CR && (CRLF + tail)[1..] == [LF] + tail;
  }

  /** Every printed list of fields is accepted, whatever follows it, and gives the last values. */
  lemma PrintedIsAccepted(out: Out, b: Block, input: string)
    requires IsBlock(b, input)
    ensures var r := Run(Start(out), input); r.accepted && HoldsLast(b.fields, out, r.out)
  {
    hide HoldsLast;
    CheckAllIsLast(b.fields, out);
    var fs := b.fields;
    if fs == [] {
      assert "" + (CRLF + b.tail) == CRLF + b.tail;
      RunBlockEnd(Start(out), b.tail);
    } else {
      assert input == PrintField(fs[0]) + (PrintFields(fs[1..]) + (CRLF + b.tail));
      RunField(Start(out), fs[0], PrintFields(fs[1..]) + (CRLF + b.tail));
      RunFields(AfterField(Start(out), fs[0]), fs[1..], b.tail);
    }
  }

  /** What an accepting run has read up to the end of the line. */
  lemma {:induction false} TextSplit(s: State, input: string) returns (t: string, rest: string)
    requires s.place.Value? && Run(s, input).accepted
    ensures IsText(t) && input == t + (CRLF + rest)
    ensures Run(s.(place := LineStart, value := s.value + t), rest).accepted
    decreases |input|
  {
    if input[0] == CR {
      rest := LineSplitEnd(s, input);
      t := "";
      assert s.value + "" == s.value;
    } else {
      t, rest := TextSplit(Step(s, input[0]), input[1..]);
      assert s.value + [input[0]] + t == s.value + ([input[0]] + t);
      t := [input[0]] + t;
    }
  }

  lemma LineSplitEnd(s: State, input: string) returns (rest: string)
    requires (s.place.Lws? || s.place.Value?) && input != "" && input[0] == CR && Run(s, input).accepted
    ensures input == CRLF + rest && Run(s.(place := LineStart), rest).accepted
  {
    var feed := s.(place := Linefeed);
    assert Run(feed, input[1..]).accepted;
    rest := input[2..];
    assert input[1..][0] == input[1] && input[1..][1..] == rest;
    assert Run(feed, input[1..]) == Run(Step(feed, input[1]), rest);
    assert input == [input[0], input[1]] + rest;
  }

  lemma {:induction false} FoldSplit(s: State, input: string) returns (blank: string, t: string, rest: string)
    requires s.place.Lws? && Run(s, input).accepted
    ensures AllBlank(blank) && IsText(t) && (t == "" || !IsBlank(t[0]))
    ensures input == blank + (t + (CRLF + rest))
    ensures Run(s.(place := LineStart, value := s.value + t), rest).accepted
    decreases |input|
  {
    if input[0] == CR {
      rest := LineSplitEnd(s, input);
      blank, t := "", "";
      assert s.value + "" == s.value;
    } else if IsBlank(input[0]) {
      blank, t, rest := FoldSplit(s, input[1..]);
      blank := [input[0]] + blank;
    } else {
      t, rest := TextSplit(Step(s, input[0]), input[1..]);
      assert s.value + [input[0]] + t == s.value + ([input[0]] + t);
      blank, t := "", [input[0]] + t;
    }
  }

  lemma {:induction false} NameSplit(s: State, input: string) returns (n: string, t: string, rest: string)
    requires s.place.Name? && Run(s, input).accepted
    ensures IsToken(n) && IsText(t) && input == n + (": " + (t + (CRLF + rest)))
    ensures Run(State(LineStart, s.name + n, s.value + t, s.out), rest).accepted
    decreases |input|
  {
    if input[0] == ':' {
      var space := s.(place := SpaceBeforeValue);
      assert Run(space, input[1..]).accepted;
      assert input[1..][1..] == input[2..] && input[1..][0] == input[1];
      assert Run(Step(space, input[1]), input[2..]).accepted;
      t, rest := TextSplit(Step(space, input[1]), input[2..]);
      n := "";
      assert s.name + "" == s.name;
      assert input == [input[0], input[1]] + input[2..];
    } else {
      n, t, rest := NameSplit(Step(s, input[0]), input[1..]);
      assert s.name + [input[0]] + n == s.name + ([input[0]] + n);
      n := [input[0]] + n;
    }
  }

  lemma {:induction false} LineSplit(s: State, input: string) returns (folds: seq<Fold>, b: Block)
    requires s.place.LineStart? && Run(s, input).accepted
    ensures forall i :: 0 <= i < |folds| ==> FoldOk(folds[i])
    ensures forall i :: 0 <= i < |b.fields| ==> FieldOk(b.fields[i])
    ensures input == PrintFolds(folds) + (PrintFields(b.fields) + (CRLF + b.tail))
    decreases |input|
  {
    if input[0] == CR {
      folds, b := [], Block([], BlockSplitEnd(s, input));
    } else if IsBlank(input[0]) {
      var blank, t, rest := FoldSplit(s.(place := Lws), input[1..]);
      folds, b := LineSplit(s.(value := s.value + t), rest);
      var f := Fold([input[0]] + blank, t);
      assert input == f.blank + (f.text + (CRLF + rest));
      PrintFoldsCons(f, folds, PrintFields(b.fields) + (CRLF + b.tail));
      folds := [f] + folds;
    } else {
      var f;
      f, b := FieldSplit(s, input);
      PrintFieldsCons(f, b.fields, CRLF + b.tail);
      folds, b := [], b.(fields := [f] + b.fields);
    }
  }

  function BlockSplitEnd(s: State, input: string): (tail: string)
    requires (s.place.LineStart? || s.place.FirstLineStart?) && input != "" && input[0] == CR && Run(s, input).accepted
    ensures input == CRLF + tail
  {
    assert Run(Step(s, CR), input[1..]).accepted;
    assert input == [input[0], input[1]] + input[2..];
    input[2..]
  }

  lemma PrintFoldsCons(f: Fold, folds: seq<Fold>, rest: string)
    ensures f.blank + (f.text + (CRLF + (PrintFolds(folds) + rest))) == PrintFolds([f] + folds) + rest
  {
    assert ([f] + folds)[1..] == folds;
  }

  lemma PrintFieldsCons(f: Field, fields: seq<Field>, rest: string)
    ensures PrintField(f) + (PrintFields(fields) + rest) == PrintFields([f] + fields) + rest
  {
    assert ([f] + fields)[1..] == fields;
  }

  /** A field at the front, and what follows it. */
  lemma {:induction false} FieldSplit(s: State, input: string) returns (f: Field, b: Block)
    requires (s.place.LineStart? || s.place.FirstLineStart?) && input != "" && Run(s, input).accepted
    requires input[0] != CR && (s.place.FirstLineStart? ==> s.name == s.value == "")
    requires s.place.LineStart? ==> !IsBlank(input[0])
    ensures FieldOk(f) && forall i :: 0 <= i < |b.fields| ==> FieldOk(b.fields[i])
    ensures input == PrintField(f) + (PrintFields(b.fields) + (CRLF + b.tail))
    decreases |input|, 0
  {
    hide PrintFolds, PrintFields, CheckHeader;
    var u := Step(s, input[0]);
    assert "" + [input[0]] == [input[0]];
    assert u == State(Name, [input[0]], "", u.out);
    var n, t, rest := NameSplit(u, input[1..]);
    assert "" + t == t;
    hide Run, Step;
    var folds;
    folds, b := LineSplit(State(LineStart, [input[0]] + n, t, u.out), rest);
    f := Field([input[0]] + n, t, folds);
    var line := ": " + (t + (CRLF + rest));
    assert input == [input[0]] + input[1..];
    Regroup([input[0]], n, line);
    FieldText(f, rest, PrintFields(b.fields) + (CRLF + b.tail));
  }

  lemma Regroup(a: string, b: string, c: string)
    ensures a + (b + c) == (a + b) + c
  {
  }

  lemma FieldText(f: Field, rest: string, after: string)
    requires rest == PrintFolds(f.folds) + after
    ensures f.name + (": " + (f.first + (CRLF + rest))) == PrintField(f) + after
  {
    hide PrintFolds;
    var folds := PrintFolds(f.folds);
    Regroup(CRLF, folds, after);
    Regroup(f.first, CRLF + folds, after);
    Regroup(": ", f.first + (CRLF + folds), after);
    Regroup(f.name, ": " + (f.first + (CRLF + folds)), after);
  }

  /** Only printed lists of fields are accepted. */
  lemma AcceptedIsPrinted(out: Out, input: string) returns (b: Block)
    requires Run(Start(out), input).accepted
    ensures IsBlock(b, input)
  {
    if input[0] == CR {
      b := Block([], BlockSplitEnd(Start(out), input));
    } else {
      var f;
      f, b := FieldSplit(Start(out), input);
      PrintFieldsCons(f, b.fields, CRLF + b.tail);
      b := b.(fields := [f] + b.fields);
    }
  }

  const INT_MAX := 0x7fff_ffff

  /** A size is read behind white space and a plus sign, and up to the first character that is no digit. */
  lemma PrintedSizeIsRead(blank: string, sign: string, n: nat, tail: string)
    requires AllSpace(blank) && sign in {"", "+", "-"} && n <= INT_MAX && (tail != "" ==> !IsDigit(tail[0]))
    ensures SizeOf(blank + (sign + (ShowNat(n) + tail)))
         == if sign == "-" && n > 0 then 0x1_0000_0000_0000_0000 - n else n
  {
    hide ShowNat;
    var digits := ShowNat(n) + tail;
    var t := sign + digits;
    ReadShown(n);
    ShownIsRead(n, tail);
    assert IsDigit(digits[0]) by { assert digits[0] == ShowNat(n)[0]; }
    assert sign != "" ==> t[0] == sign[0] && t[1..] == digits;
    assert sign == "" ==> t == digits;
    SkipSpacesIs(blank, t);
  }

  /** Without a digit in front the size is 0. */
  lemma NoDigitsIsZero(blank: string, sign: string, s: string)
    requires AllSpace(blank) && sign in {"", "+", "-"}
    requires s != "" ==> !IsDigit(s[0]) && (sign == "" ==> !IsSpace(s[0]) && s[0] != '-' && s[0] != '+')
    ensures SizeOf(blank + (sign + s)) == 0
  {
    var t := sign + s;
    assert sign != "" ==> t[0] == sign[0] && t[1..] == s;
    assert sign == "" ==> t == s;
    SkipSpacesIs(blank, t);
  }

  /** A block whose last Content-Length field is a printed number gives that number. */
  lemma PrintedLengthIsRead(out: Out, b: Block, input: string, blank: string, sign: string, n: nat, tail: string)
    requires IsBlock(b, input) && n <= INT_MAX
    requires AllSpace(blank) && sign in {"", "+"} && (tail != "" ==> !IsDigit(tail[0]))
    requires LastValue(b.fields, CONTENT_LENGTH) == Some(blank + (sign + (ShowNat(n) + tail)))
    ensures var r := Run(Start(out), input); r.accepted && r.out.contentLength == n
  {
    hide IsBlock, Run, SizeOf, LastValue;
    PrintedIsAccepted(out, b, input);
    PrintedSizeIsRead(blank, sign, n, tail);
  }

  lemma BlocksAreAccepted(out: Out, input: string)
    ensures Run(Start(out), input).accepted <==> exists b: Block :: IsBlock(b, input)
    ensures forall b: Block :: IsBlock(b, input) ==> HoldsLast(b.fields, out, Run(Start(out), input).out)
  {
    hide IsBlock, HoldsLast, Run;
    if Run(Start(out), input).accepted { var b := AcceptedIsPrinted(out, input); }
    forall b: Block | IsBlock(b, input)
      ensures Run(Start(out), input).accepted && HoldsLast(b.fields, out, Run(Start(out), input).out)
    {
      PrintedIsAccepted(out, b, input);
    }
  }

  /** The parser. What it found before a failure stays with the caller. */
  method ParseHttpHeaders(input: string, contentType: string, contentLength: nat, location: string)
    returns (accepted: bool, contentType': string, contentLength': nat, location': string)
    ensures Result(accepted, Out(contentType', contentLength', location'))
         == Run(Start(Out(contentType, contentLength, location)), input)
    ensures accepted <==> exists b: Block :: IsBlock(b, input)
    ensures forall b: Block :: IsBlock(b, input) ==>
              HoldsLast(b.fields, Out(contentType, contentLength, location), Out(contentType', contentLength', location'))
  {
    ghost var out := Out(contentType, contentLength, location);
    BlocksAreAccepted(out, input);
    contentType', contentLength', location' := contentType, contentLength, location;
    var (state, name, value) := (FirstLineStart, "", "");
    var i := 0;
    hide IsBlock, HoldsLast, CheckHeader, IsTokenChar, IsControl;
    while i < |input| && state != Fail
      invariant 0 <= i <= |input|
      invariant Run(Start(out), input)
             == Run(State(state, name, value, Out(contentType', contentLength', location')), input[i..])
    {
      var c := input[i];
      i := i + 1;
      assert input[i - 1..][1..] == input[i..];
      match state
      case FirstLineStart =>
        if c == CR {
          state := FinalLinefeed;
        } else if !IsTokenChar(c) {
          state := Fail;
        } else {
          state, name := Name, name + [c];
        }
      case LineStart =>
        if c == CR {
          contentType', contentLength', location' := CheckHeaderField(name, value, contentType', contentLength', location');
          state, name, value := FinalLinefeed, "", "";
        } else if IsBlank(c) {
          state := Lws;
        } else if !IsTokenChar(c) {
          state := Fail;
        } else {
          contentType', contentLength', location' := CheckHeaderField(name, value, contentType', contentLength', location');
          state, name, value := Name, [c], "";
        }
      case Lws =>
        if c == CR {
          state := Linefeed;
        } else if IsBlank(c) {
        } else if IsControl(c) {
          state := Fail;
        } else {
          state, value := Value, value + [c];
        }
      case Name =>
        if c == ':' {
          state := SpaceBeforeValue;
        } else if !IsTokenChar(c) {
          state := Fail;
        } else {
          name := name + [c];
        }
      case SpaceBeforeValue => state := if c == ' ' then Value else Fail;
      case Value =>
        if c == CR {
          state := Linefeed;
        } else if IsControl(c) {
          state := Fail;
        } else {
          value := value + [c];
        }
      case Linefeed => state := if c == LF then LineStart else Fail;
      case FinalLinefeed => return c == LF, contentType', contentLength', location';
    }
    accepted := false;
  }
}
