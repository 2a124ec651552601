/** The Content-Disposition line of a form-data part: the printer's line and the regular expression that reads it. */
module Disposition {
  import opened Text
  import opened Wrappers

  datatype Fields = Fields(name: string, filename: string)

  function SkipNonSpaces(s: string): string
  {
    if s != "" && !IsSpace(s[0]) then SkipNonSpaces(s[1..]) else s
  }

  /** What follows the keyword `lit`, in any letter case, at the start of `s`. */
  function After(s: string, lit: string): Option<string>
  {
    if StartsWithIgnoringCase(s, lit) then Some(s[|lit|..]) else None
  }

  /** `(?:;\s*filename\*=\S+)?\s*$` */
  predicate MatchTail(s: string)
  {
    SkipSpaces(s) == "" || MatchExtendedFilename(s)
  }

  predicate MatchExtendedFilename(s: string)
  {
    match After(s, ";")
    case None => false
    case Some(t) =>
      match After(SkipSpaces(t), "filename*=")
      case None => false
      case Some(u) => u != "" && !IsSpace(u[0]) && SkipSpaces(SkipNonSpaces(u)) == ""
  }

  /** `(.*?)"` followed by the tail, the closing quote at `i` or later. */
  function MatchFilename(s: string, i: nat): Option<string>
    requires i <= |s|
    decreases |s| - i
  {
    if i == |s| then None
    else if s[i] == '"' && MatchTail(s[i + 1..]) then Some(s[..i])
    else if s[i] == CR || s[i] == LF then None
    else MatchFilename(s, i + 1)
  }

  function MatchFilenameClause(s: string): Option<string>
  {
    var t :- After(s, ";");
    var u :- After(SkipSpaces(t), "filename=\"");
    MatchFilename(u, 0)
  }

  /** What may follow the name's closing quote; the optional filename clause is tried first. */
  function MatchAfterName(s: string): Option<string>
  {
    match MatchFilenameClause(s)
    case Some(filename) => Some(filename)
    case None => if MatchTail(s) then Some("") else None
  }

  /** `(.*?)"` followed by what may follow a name, the closing quote at `i` or later. */
  function MatchName(s: string, i: nat): Option<Fields>
    requires i <= |s|
    decreases |s| - i
  {
    if i == |s| then None
    else if s[i] == '"' && MatchAfterName(s[i + 1..]).Some? then
      Some(Fields(s[..i], MatchAfterName(s[i + 1..]).value))
    else if s[i] == CR || s[i] == LF then None
    else MatchName(s, i + 1)
  }

  /** The whole expression: both lazy groups end at the first quote from which the rest matches. */
  function MatchDisposition(line: string): Option<Fields>
  {
    var a :- After(line, "Content-Disposition:");
    var b :- After(SkipSpaces(a), "form-data;");
    var c :- After(SkipSpaces(b), "name=\"");
    MatchName(c, 0)
  }

  function FilenameClause(filename: string): string
  {
    if filename == "" then "" else "; filename=\"" + filename + "\""
  }

  /** The line that serialize_multipart_formdata_item_begin prints, without its line end. */
  function DispositionLine(f: Fields): string
  {
    "Content-Disposition: form-data; name=\"" + f.name + "\"" + FilenameClause(f.filename)
  }

  predicate OneLine(s: string)
  {
    CR !in s && LF !in s
  }

  /** No quote inside is one from which the rest of the expression matches. */
  predicate FilenameClear(f: string)
  {
    OneLine(f) && forall i :: 0 <= i < |f| && f[i] == '"' ==> !MatchTail(f[i + 1..] + "\"")
  }

  predicate NameClear(name: string, rest: string)
  {
    OneLine(name) && forall i :: 0 <= i < |name| && name[i] == '"' ==> MatchAfterName(name[i + 1..] + "\"" + rest).None?
  }

  /** The printed quotes are the ones the expression finds. */
  predicate Unambiguous(f: Fields)
  {
    FilenameClear(f.filename) && NameClear(f.name, FilenameClause(f.filename))
  }

  predicate FilenameClearFrom(f: string, i: nat)
  {
    forall k :: i <= k < |f| ==> f[k] != CR && f[k] != LF && (f[k] == '"' ==> !MatchTail(f[k + 1..] + "\""))
  }

  lemma {:induction false} MatchFilenameExact(f: string, i: nat)
    requires i <= |f|
    ensures MatchFilename(f + "\"", i) == Some(f) <==> FilenameClearFrom(f, i)
    decreases |f| - i
  {
    hide MatchTail;
    var s := f + "\"";
    if i == |f| {
      assert s[i + 1..] == "" && s[..i] == f;
      TailMayBeEmpty();
    } else {
      assert s[i] == f[i] && s[i + 1..] == f[i + 1..] + "\"";
      assert |s[..i]| < |f|;
      MatchFilenameExact(f, i + 1);
    }
  }

  lemma TailMayBeEmpty()
    ensures MatchTail("")
  {
  }

  lemma AfterPrinted(lit: string, rest: string)
    ensures After(lit + rest, lit) == Some(rest)
  {
    assert (lit + rest)[..|lit|] == lit && (lit + rest)[|lit|..] == rest;
  }

  lemma SkipOneSpace(s: string)
    requires s != "" && !IsSpace(s[0])
    ensures SkipSpaces(" " + s) == s
  {
    assert (" " + s)[1..] == s;
  }

  lemma AfterSpaceAndPrinted(lit: string, rest: string)
    requires lit != "" && !IsSpace(lit[0])
    ensures After(SkipSpaces(" " + lit + rest), lit) == Some(rest)
  {
    assert " " + lit + rest == " " + (lit + rest);
    SkipOneSpace(lit + rest);
    AfterPrinted(lit, rest);
  }

  lemma AfterNameExact(filename: string)
    ensures MatchAfterName(FilenameClause(filename)) == Some(filename) <==> FilenameClear(filename)
  {
    if filename != "" {
      var t := " " + "filename=\"" + (filename + "\"");
      assert "; filename=\"" + filename + "\"" == ";" + t;
      AfterPrinted(";", t);
      AfterSpaceAndPrinted("filename=\"", filename + "\"");
      MatchFilenameExact(filename, 0);
      assert FilenameClearFrom(filename, 0) <==> FilenameClear(filename);
    }
  }

  predicate NameClearFrom(name: string, rest: string, i: nat)
  {
    forall k :: i <= k < |name| ==>
      name[k] != CR && name[k] != LF && (name[k] == '"' ==> MatchAfterName(name[k + 1..] + "\"" + rest).None?)
  }

  lemma {:induction false} MatchNameExact(name: string, rest: string, i: nat, filename: string)
    requires i <= |name|
    ensures MatchName(name + "\"" + rest, i) == Some(Fields(name, filename))
       <==> NameClearFrom(name, rest, i) && MatchAfterName(rest) == Some(filename)
    decreases |name| - i
  {
    hide MatchAfterName;
    var s := name + "\"" + rest;
    if i == |name| {
      assert s[i + 1..] == rest && s[..i] == name;
      assert s[i] == '"';
      if MatchAfterName(rest).None? { StopsAtQuote(s, i, name, filename); }
    } else {
      assert s[i] == name[i] && s[i + 1..] == name[i + 1..] + "\"" + rest;
      assert |s[..i]| < |name|;
      MatchNameExact(name, rest, i + 1, filename);
    }
  }

  /** A search that goes on beyond `i` finds only longer names. */
  lemma {:induction false} StopsAtQuote(s: string, i: nat, name: string, filename: string)
    requires i < |s| && |name| <= i && (s[i] == '"' ==> MatchAfterName(s[i + 1..]).None?)
    ensures MatchName(s, i) != Some(Fields(name, filename))
    decreases |s| - i
  {
    hide MatchAfterName;
    if i + 1 < |s| { LongerName(s, i + 1); }
  }

  lemma {:induction false} LongerName(s: string, i: nat)
    requires i <= |s|
    ensures MatchName(s, i).Some? ==> |MatchName(s, i).value.name| >= i
    decreases |s| - i
  {
    hide MatchAfterName;
    if i < |s| { LongerName(s, i + 1); }
  }

  /** The expression reads back what the printer printed if and only if no inner quote can end a field early. */
  lemma ReadsBackExactly(f: Fields)
    ensures MatchDisposition(DispositionLine(f)) == Some(f) <==> Unambiguous(f)
  {
    hide MatchName, MatchAfterName, SkipSpaces, After;
    var rest := FilenameClause(f.filename);
    var q := f.name + "\"" + rest;
    var b := " " + "name=\"" + q;
    var a := " " + "form-data;" + b;
    PrintedSplit(f);
    AfterPrinted("Content-Disposition:", a);
    AfterSpaceAndPrinted("form-data;", b);
    AfterSpaceAndPrinted("name=\"", q);
    AfterNameExact(f.filename);
    MatchNameExact(f.name, rest, 0, f.filename);
    assert NameClearFrom(f.name, rest, 0) <==> NameClear(f.name, rest);
  }

  lemma PrintedSplit(f: Fields)
    ensures DispositionLine(f)
         == "Content-Disposition:" + (" " + "form-data;" + (" " + "name=\"" + (f.name + "\"" + FilenameClause(f.filename))))
  {
    assert "Content-Disposition: form-data; name=\"" == "Content-Disposition:" + (" " + "form-data;" + (" " + "name=\""));
  }

  lemma {:induction false} FilenameFound(f: string, i: nat)
    requires OneLine(f) && i <= |f|
    ensures MatchFilename(f + "\"", i).Some?
    decreases |f| - i
  {
    hide MatchTail;
    var s := f + "\"";
    if i == |f| {
      assert s[i + 1..] == "";
      TailMayBeEmpty();
    } else {
      assert s[i] == f[i] && f[i] in f;
      FilenameFound(f, i + 1);
    }
  }

  lemma {:induction false} NameFound(name: string, rest: string, i: nat)
    requires OneLine(name) && i <= |name| && MatchAfterName(rest).Some?
    ensures MatchName(name + "\"" + rest, i).Some?
    decreases |name| - i
  {
    hide MatchAfterName;
    var s := name + "\"" + rest;
    if i == |name| {
      assert s[i + 1..] == rest;
    } else {
      assert s[i] == name[i] && name[i] in name;
      NameFound(name, rest, i + 1);
    }
  }

  lemma AfterNameFound(filename: string)
    requires OneLine(filename)
    ensures MatchAfterName(FilenameClause(filename)).Some?
  {
    if filename != "" {
      var t := " " + "filename=\"" + (filename + "\"");
      assert "; filename=\"" + filename + "\"" == ";" + t;
      AfterPrinted(";", t);
      AfterSpaceAndPrinted("filename=\"", filename + "\"");
      FilenameFound(filename, 0);
    }
  }

  /** Something is read from every printed line. */
  lemma SomethingIsRead(f: Fields)
    requires OneLine(f.name) && OneLine(f.filename)
    ensures MatchDisposition(DispositionLine(f)).Some?
  {
    hide MatchName, MatchAfterName, SkipSpaces, After;
    var rest := FilenameClause(f.filename);
    var q := f.name + "\"" + rest;
    var b := " " + "name=\"" + q;
    var a := " " + "form-data;" + b;
    PrintedSplit(f);
    AfterPrinted("Content-Disposition:", a);
    AfterSpaceAndPrinted("form-data;", b);
    AfterSpaceAndPrinted("name=\"", q);
    AfterNameFound(f.filename);
    NameFound(f.name, rest, 0);
  }

  lemma {:induction false} FilenameIsOneLine(s: string, i: nat)
    requires i <= |s| && OneLine(s[..i])
    ensures MatchFilename(s, i).Some? ==> OneLine(MatchFilename(s, i).value)
    decreases |s| - i
  {
    hide MatchTail;
    if i < |s| && s[i] != CR && s[i] != LF {
      assert s[..i + 1] == s[..i] + [s[i]];
      FilenameIsOneLine(s, i + 1);
    }
  }

  lemma AfterNameIsOneLine(s: string)
    ensures MatchAfterName(s).Some? ==> OneLine(MatchAfterName(s).value)
  {
    hide MatchTail, MatchFilename, After;
    var t := After(s, ";");
    if t.Some? {
      var u := After(SkipSpaces(t.value), "filename=\"");
      if u.Some? { FilenameIsOneLine(u.value, 0); }
    }
  }

  lemma {:induction false} NameIsOneLine(s: string, i: nat)
    requires i <= |s| && OneLine(s[..i])
    ensures MatchName(s, i).Some? ==> OneLine(MatchName(s, i).value.name) && OneLine(MatchName(s, i).value.filename)
    decreases |s| - i
  {
    hide MatchAfterName;
    if i < |s| {
      AfterNameIsOneLine(s[i + 1..]);
      if s[i] != CR && s[i] != LF {
        assert s[..i + 1] == s[..i] + [s[i]];
        NameIsOneLine(s, i + 1);
      }
    }
  }

  /** No name or file name that is read holds a line break. */
  lemma MatchIsOneLine(line: string)
    ensures var f := MatchDisposition(line); f.Some? ==> OneLine(f.value.name) && OneLine(f.value.filename)
  {
    hide MatchName, After, SkipSpaces;
    var a := After(line, "Content-Disposition:");
    if a.Some? {
      var b := After(SkipSpaces(a.value), "form-data;");
      if b.Some? {
        var c := After(SkipSpaces(b.value), "name=\"");
        if c.Some? { NameIsOneLine(c.value, 0); }
      }
    }
  }

  /** Fields without quotes and line ends are read back. */
  lemma QuotelessIsUnambiguous(f: Fields)
    requires OneLine(f.name) && OneLine(f.filename) && '"' !in f.name && '"' !in f.filename
    ensures Unambiguous(f) && MatchDisposition(DispositionLine(f)) == Some(f)
  {
    hide MatchTail, MatchAfterName, MatchDisposition, DispositionLine;
    ReadsBackExactly(f);
  }

  /** A printed line has no carriage return when its fields have none. */
  lemma DispositionLineIsOneLine(f: Fields)
    requires OneLine(f.name) && OneLine(f.filename)
    ensures CR !in DispositionLine(f)
  {
    assert CR !in "Content-Disposition: form-data; name=\"";
    assert CR !in "; filename=\"";
  }

  lemma SamePrintedLine()
    ensures DispositionLine(Fields("a\"; filename=\"b", "")) == DispositionLine(Fields("a", "b"))
  {
  }

  /** The printer does not escape: a quote in a name can move text from the name to the filename. */
  lemma QuotedNameIsMisread()
    ensures var (f, g) := (Fields("a\"; filename=\"b", ""), Fields("a", "b"));
            f != g && !Unambiguous(f) && MatchDisposition(DispositionLine(f)) == Some(g)
  {
    hide MatchDisposition, Unambiguous, DispositionLine;
    var f, g := Fields("a\"; filename=\"b", ""), Fields("a", "b");
    SamePrintedLine();
    QuotelessIsUnambiguous(g);
    ReadsBackExactly(f);
    assert f.filename != g.filename;
  }
}
