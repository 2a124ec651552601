/** The lines that the Content-Disposition expression matches, as a grammar, and what it reads from them. */
module DispositionGrammar {
  import opened Text
  import opened Wrappers
  import opened Disposition

  predicate NoSpace(s: string)
  {
    forall i :: 0 <= i < |s| ==> !IsSpace(s[i])
  }

  /** `filename*=` and its value; keywords come in any letter case. */
  datatype Extended = Extended(blank: string, keyword: string, value: string)

  /** What may stand behind the last quote. */
  datatype Tail = Tail(extended: Option<Extended>, end: string)

  /** `filename="` and what it quotes. */
  datatype Quoted = Quoted(blank: string, keyword: string, text: string)

  /** What may stand behind the name's closing quote. */
  datatype Rest = Rest(file: Option<Quoted>, tail: Tail)

  datatype Line = Line(type_: string, blank: string, form: string, name: Quoted, rest: Rest)

  function PrintTail(t: Tail): string
  {
    (if t.extended.None? then "" else
       ";" + (t.extended.value.blank + (t.extended.value.keyword + t.extended.value.value))) + t.end
  }

  function PrintQuoted(q: Quoted, rest: string): string
  {
    q.blank + (q.keyword + (q.text + "\"" + rest))
  }

  function PrintRest(r: Rest): string
  {
    if r.file.None? then PrintTail(r.tail) else ";" + PrintQuoted(r.file.value, PrintTail(r.tail))
  }

  function PrintLine(l: Line): string
  {
    l.type_ + (l.blank + (l.form + PrintQuoted(l.name, PrintRest(l.rest))))
  }

  predicate TailOk(t: Tail)
  {
    && AllSpace(t.end)
    && (t.extended.Some? ==>
          && AllSpace(t.extended.value.blank) && EqualIgnoringCase(t.extended.value.keyword, "filename*=")
          && t.extended.value.value != "" && NoSpace(t.extended.value.value))
  }

  ghost predicate IsTail(s: string)
  {
    exists t :: TailOk(t) && PrintTail(t) == s
  }

  /** The quoted text is one line and ends at the first quote that can end it. */
  ghost predicate FileEnds(f: string, t: Tail)
  {
    && OneLine(f) && TailOk(t)
    && forall i :: 0 <= i < |f| && f[i] == '"' ==> !IsTail(f[i + 1..] + "\"" + PrintTail(t))
  }

  ghost predicate RestOk(r: Rest)
  {
    && TailOk(r.tail)
    && (r.file.Some? ==>
          var q := r.file.value;
          AllSpace(q.blank) && EqualIgnoringCase(q.keyword, "filename=\"") && FileEnds(q.text, r.tail))
  }

  function FileOf(r: Rest): string
  {
    if r.file.Some? then r.file.value.text else ""
  }

  ghost predicate IsRest(s: string)
  {
    exists r :: RestOk(r) && PrintRest(r) == s
  }

  ghost predicate LineOk(l: Line)
  {
    && EqualIgnoringCase(l.type_, "Content-Disposition:") && AllSpace(l.blank)
    && EqualIgnoringCase(l.form, "form-data;")
    && AllSpace(l.name.blank) && EqualIgnoringCase(l.name.keyword, "name=\"") && OneLine(l.name.text)
    && RestOk(l.rest)
    && forall i :: 0 <= i < |l.name.text| && l.name.text[i] == '"' ==>
         !IsRest(l.name.text[i + 1..] + "\"" + PrintRest(l.rest))
  }

  lemma {:induction false} SkipSpacesSplits(s: string) returns (w: string)
    ensures AllSpace(w) && s == w + SkipSpaces(s)
    ensures SkipSpaces(s) != "" ==> !IsSpace(SkipSpaces(s)[0])
    decreases |s|
  {
    w := "";
    if s != "" && IsSpace(s[0]) {
      w := SkipSpacesSplits(s[1..]);
      w := [s[0]] + w;
    }
  }

  lemma {:induction false} SkipNonSpacesIs(v: string, s: string)
    requires NoSpace(v) && (s != "" ==> IsSpace(s[0]))
    ensures SkipNonSpaces(v + s) == s
    decreases |v|
  {
    if v == "" {
      assert v + s == s;
    } else {
      assert (v + s)[1..] == v[1..] + s;
      SkipNonSpacesIs(v[1..], s);
    }
  }

  lemma {:induction false} SkipNonSpacesSplits(s: string) returns (v: string)
    ensures NoSpace(v) && s == v + SkipNonSpaces(s)
    ensures s != "" && !IsSpace(s[0]) ==> v != ""
    decreases |s|
  {
    v := "";
    if s != "" && !IsSpace(s[0]) {
      v := SkipNonSpacesSplits(s[1..]);
      v := [s[0]] + v;
    }
  }

  lemma AfterIs(keyword: string, lit: string, rest: string)
    requires EqualIgnoringCase(keyword, lit)
    ensures After(keyword + rest, lit) == Some(rest)
  {
    assert (keyword + rest)[..|lit|] == keyword && (keyword + rest)[|lit|..] == rest;
  }

  lemma AfterSplits(s: string, lit: string)
    requires After(s, lit).Some?
    ensures EqualIgnoringCase(s[..|lit|], lit) && s == s[..|lit|] + After(s, lit).value
  {
  }

  /** A keyword behind white space. */
  lemma AfterSpaceIs(blank: string, keyword: string, lit: string, rest: string)
    requires AllSpace(blank) && EqualIgnoringCase(keyword, lit) && lit != "" && 'a' <= Lower(lit[0]) <= 'z'
    ensures After(SkipSpaces(blank + (keyword + rest)), lit) == Some(rest)
  {
    assert (keyword + rest)[0] == keyword[0] && Lower(keyword[0]) == Lower(lit[0]);
    SkipSpacesIs(blank, keyword + rest);
    AfterIs(keyword, lit, rest);
  }

  lemma AfterSpaceSplits(s: string, lit: string) returns (blank: string, keyword: string)
    requires After(SkipSpaces(s), lit).Some?
    ensures AllSpace(blank) && EqualIgnoringCase(keyword, lit)
    ensures s == blank + (keyword + After(SkipSpaces(s), lit).value)
  {
    blank := SkipSpacesSplits(s);
    AfterSplits(SkipSpaces(s), lit);
    keyword := SkipSpaces(s)[..|lit|];
  }

  lemma AfterSemicolon(s: string)
    ensures After(";" + s, ";") == Some(s)
    ensures forall x :: After(x, ";") == Some(s) ==> x == ";" + s
  {
    AfterIs(";", ";", s);
    forall x | After(x, ";") == Some(s) ensures x == ";" + s {
      AfterSplits(x, ";");
      SemicolonOnly(x[..1]);
    }
  }

  lemma SemicolonOnly(k: string)
    requires EqualIgnoringCase(k, ";")
    ensures k == ";"
  {
    assert Lower(k[0]) == Lower(";"[0]) == ';';
  }

  /** The tail of the expression matches exactly the tails of the grammar. */
  lemma TailExact(s: string)
    ensures MatchTail(s) <==> IsTail(s)
  {
    if MatchTail(s) {
      var t := TailRead(s);
    }
    if IsTail(s) {
      var t :| TailOk(t) && PrintTail(t) == s;
      TailMatches(t);
    }
  }

  lemma TailRead(s: string) returns (t: Tail)
    requires MatchTail(s)
    ensures TailOk(t) && PrintTail(t) == s
  {
    hide After, SkipSpaces, SkipNonSpaces;
    if SkipSpaces(s) == "" {
      var w := SkipSpacesSplits(s);
      t := Tail(None, s);
    } else {
      var x := After(s, ";").value;
      AfterSemicolon(x);
      var blank, keyword := AfterSpaceSplits(x, "filename*=");
      var u := After(SkipSpaces(x), "filename*=").value;
      var value := SkipNonSpacesSplits(u);
      var end := SkipSpacesSplits(SkipNonSpaces(u));
      t := Tail(Some(Extended(blank, keyword, value)), SkipNonSpaces(u));
      assert blank + (keyword + value) + SkipNonSpaces(u) == blank + (keyword + u);
    }
  }

  lemma TailMatches(t: Tail)
    requires TailOk(t)
    ensures MatchTail(PrintTail(t))
  {
    hide After, SkipSpaces, SkipNonSpaces;
    var s := PrintTail(t);
    if t.extended.None? {
      assert s == t.end + "";
      SkipSpacesIs(t.end, "");
    } else {
      var e := t.extended.value;
      var u := e.value + t.end;
      assert s == ";" + (e.blank + (e.keyword + u));
      AfterSemicolon(e.blank + (e.keyword + u));
      AfterSpaceIs(e.blank, e.keyword, "filename*=", u);
      SkipNonSpacesIs(e.value, t.end);
      assert t.end + "" == t.end;
      SkipSpacesIs(t.end, "");
    }
  }

  /** A lazy group ends at the first quote from which the rest matches. */
  lemma {:induction false} MatchFilenameIs(s: string, i: nat, f: string)
    requires i <= |s|
    ensures MatchFilename(s, i) == Some(f)
       <==> i <= |f| < |s| && s[..|f|] == f && s[|f|] == '"' && MatchTail(s[|f| + 1..])
            && forall k :: i <= k < |f| ==> s[k] != CR && s[k] != LF && !(s[k] == '"' && MatchTail(s[k + 1..]))
    decreases |s| - i
  {
    hide MatchTail;
    if i < |s| { MatchFilenameIs(s, i + 1, f); }
  }

  lemma {:induction false} MatchNameIs(s: string, i: nat, f: Fields)
    requires i <= |s|
    ensures MatchName(s, i) == Some(f)
       <==> i <= |f.name| < |s| && s[..|f.name|] == f.name && s[|f.name|] == '"'
            && MatchAfterName(s[|f.name| + 1..]) == Some(f.filename)
            && forall k :: i <= k < |f.name| ==>
                 s[k] != CR && s[k] != LF && !(s[k] == '"' && MatchAfterName(s[k + 1..]).Some?)
    decreases |s| - i
  {
    hide MatchAfterName;
    if i < |s| { MatchNameIs(s, i + 1, f); }
  }

  /** The first text of `text`, a quote and `rest`. */
  lemma QuotedSplit(text: string, rest: string)
    ensures var s := text + "\"" + rest;
            && s[..|text|] == text && s[|text|] == '"' && s[|text| + 1..] == rest
            && forall k :: 0 <= k < |text| ==> s[k] == text[k] && s[k + 1..] == text[k + 1..] + "\"" + rest
  {
  }

  lemma QuotedJoin(s: string, text: string)
    requires |text| < |s| && s[..|text|] == text && s[|text|] == '"'
    ensures s == text + "\"" + s[|text| + 1..]
  {
  }

  /** A file name is read from the text of a clause exactly when it ends at the first quote that can end it. */
  lemma FilenameExact(s: string, f: string)
    ensures MatchFilename(s, 0) == Some(f)
       <==> exists t :: FileEnds(f, t) && s == f + "\"" + PrintTail(t)
  {
    hide MatchTail, MatchFilename, IsTail, PrintTail, TailOk;
    MatchFilenameIs(s, 0, f);
    if MatchFilename(s, 0) == Some(f) {
      QuotedJoin(s, f);
      var rest := s[|f| + 1..];
      QuotedSplit(f, rest);
      TailExact(rest);
      var t := TailOf(rest);
      forall i | 0 <= i < |f| && f[i] == '"' ensures !IsTail(f[i + 1..] + "\"" + PrintTail(t)) {
        TailExact(s[i + 1..]);
      }
    }
    if t: Tail :| FileEnds(f, t) && s == f + "\"" + PrintTail(t) {
      var rest := PrintTail(t);
      QuotedSplit(f, rest);
      TailMatches(t);
      forall k | 0 <= k < |f| ensures s[k] != CR && s[k] != LF && !(s[k] == '"' && MatchTail(s[k + 1..])) {
        TailExact(s[k + 1..]);
        assert f[k] in f;
      }
    }
  }

  lemma TailOf(s: string) returns (t: Tail)
    requires IsTail(s)
    ensures TailOk(t) && PrintTail(t) == s
  {
    t :| TailOk(t) && PrintTail(t) == s;
  }

  lemma SpaceIsNoSemicolon(s: string)
    requires AllSpace(s)
    ensures After(s, ";").None?
  {
    if s != "" {
      assert IsSpace(s[0]) && s[..1][0] == s[0] && Lower(s[0]) != ';';
    }
  }

  /** No tail begins like a file name clause. */
  lemma TailIsNoFile(t: Tail)
    requires TailOk(t)
    ensures MatchFilenameClause(PrintTail(t)).None?
  {
    hide SkipSpaces, MatchFilename, After;
    var s := PrintTail(t);
    if t.extended.None? {
      assert s == t.end;
      SpaceIsNoSemicolon(s);
    } else {
      var e := t.extended.value;
      var u := e.value + t.end;
      assert s == ";" + (e.blank + (e.keyword + u));
      AfterSemicolon(e.blank + (e.keyword + u));
      assert (e.keyword + u)[0] == e.keyword[0] && Lower(e.keyword[0]) == 'f';
      SkipSpacesIs(e.blank, e.keyword + u);
      NotFilename(e.keyword, u);
    }
  }

  lemma NotFilename(keyword: string, u: string)
    requires EqualIgnoringCase(keyword, "filename*=")
    ensures After(keyword + u, "filename=\"").None?
  {
    assert Lower(keyword[8]) == Lower("filename*="[8]) == '*';
    if |keyword + u| >= 10 {
      assert (keyword + u)[..10][8] == keyword[8];
      assert Lower("filename=\""[8]) == '=';
    }
  }

  /** What follows the name's closing quote. */
  lemma RestExact(s: string, f: string)
    ensures MatchAfterName(s) == Some(f) <==> exists r :: RestOk(r) && PrintRest(r) == s && FileOf(r) == f
  {
    if MatchAfterName(s) == Some(f) {
      var r := RestRead(s);
    }
    if r :| RestOk(r) && PrintRest(r) == s && FileOf(r) == f {
      RestMatches(r);
    }
  }

  lemma RestRead(s: string) returns (r: Rest)
    requires MatchAfterName(s).Some?
    ensures RestOk(r) && PrintRest(r) == s && FileOf(r) == MatchAfterName(s).value
  {
    hide MatchTail, MatchFilename, After, SkipSpaces, TailOk, PrintTail, IsTail;
    if MatchFilenameClause(s).Some? {
      var x := After(s, ";").value;
      AfterSemicolon(x);
      var blank, keyword := AfterSpaceSplits(x, "filename=\"");
      var u := After(SkipSpaces(x), "filename=\"").value;
      var f := MatchFilenameClause(s).value;
      FilenameExact(u, f);
      var t :| FileEnds(f, t) && u == f + "\"" + PrintTail(t);
      r := Rest(Some(Quoted(blank, keyword, f)), t);
    } else {
      TailExact(s);
      var t := TailOf(s);
      r := Rest(None, t);
    }
  }

  lemma RestMatches(r: Rest)
    requires RestOk(r)
    ensures MatchAfterName(PrintRest(r)) == Some(FileOf(r))
  {
    hide MatchTail, MatchFilename, After, SkipSpaces, TailOk, PrintTail, IsTail;
    if r.file.None? {
      TailIsNoFile(r.tail);
      TailMatches(r.tail);
    } else {
      var (q, rest) := (r.file.value, PrintTail(r.tail));
      var u := q.text + "\"" + rest;
      AfterSemicolon(q.blank + (q.keyword + u));
      AfterSpaceIs(q.blank, q.keyword, "filename=\"", u);
      FilenameExact(u, q.text);
    }
  }

  lemma RestOf(s: string) returns (r: Rest)
    requires IsRest(s)
    ensures RestOk(r) && PrintRest(r) == s
  {
    r :| RestOk(r) && PrintRest(r) == s;
  }

  lemma IsRestExact(s: string)
    ensures MatchAfterName(s).Some? <==> IsRest(s)
  {
    hide RestOk, PrintRest, MatchAfterName;
    if MatchAfterName(s).Some? {
      RestExact(s, MatchAfterName(s).value);
    }
    if IsRest(s) {
      var r := RestOf(s);
      RestExact(s, FileOf(r));
    }
  }

  /** The expression matches exactly the lines of the grammar, and reads their name and file name. */
  lemma DispositionExact(line: string, f: Fields)
    ensures MatchDisposition(line) == Some(f)
       <==> exists l :: LineOk(l) && PrintLine(l) == line && l.name.text == f.name && FileOf(l.rest) == f.filename
  {
    if MatchDisposition(line) == Some(f) {
      var l := LineRead(line);
    }
    if l :| LineOk(l) && PrintLine(l) == line && l.name.text == f.name && FileOf(l.rest) == f.filename {
      LineMatches(l);
    }
  }

  lemma LineRead(line: string) returns (l: Line)
    requires MatchDisposition(line).Some?
    ensures LineOk(l) && PrintLine(l) == line
    ensures MatchDisposition(line).value == Fields(l.name.text, FileOf(l.rest))
  {
    hide MatchName, MatchAfterName, After, SkipSpaces, RestOk, PrintRest, IsRest, FileOf;
    AfterSplits(line, "Content-Disposition:");
    var a := After(line, "Content-Disposition:").value;
    var blank, form := AfterSpaceSplits(a, "form-data;");
    var b := After(SkipSpaces(a), "form-data;").value;
    var blank2, keyword := AfterSpaceSplits(b, "name=\"");
    var c := After(SkipSpaces(b), "name=\"").value;
    var f := MatchName(c, 0).value;
    MatchNameIs(c, 0, f);
    QuotedJoin(c, f.name);
    var rest := c[|f.name| + 1..];
    QuotedSplit(f.name, rest);
    RestExact(rest, f.filename);
    var r :| RestOk(r) && PrintRest(r) == rest && FileOf(r) == f.filename;
    forall i | 0 <= i < |f.name| && f.name[i] == '"' ensures !IsRest(f.name[i + 1..] + "\"" + PrintRest(r)) {
      IsRestExact(c[i + 1..]);
    }
    l := Line(line[..20], blank, form, Quoted(blank2, keyword, f.name), r);
  }

  lemma LineMatches(l: Line)
    requires LineOk(l)
    ensures MatchDisposition(PrintLine(l)) == Some(Fields(l.name.text, FileOf(l.rest)))
  {
    hide MatchName, MatchAfterName, After, SkipSpaces, RestOk, PrintRest, IsRest, FileOf;
    var (name, rest) := (l.name.text, PrintRest(l.rest));
    var c := name + "\"" + rest;
    var b := PrintQuoted(l.name, rest);
    AfterIs(l.type_, "Content-Disposition:", l.blank + (l.form + b));
    AfterSpaceIs(l.blank, l.form, "form-data;", b);
    AfterSpaceIs(l.name.blank, l.name.keyword, "name=\"", c);
    QuotedSplit(name, rest);
    RestExact(rest, FileOf(l.rest));
    forall k | 0 <= k < |name|
      ensures c[k] != CR && c[k] != LF && !(c[k] == '"' && MatchAfterName(c[k + 1..]).Some?)
    {
      IsRestExact(c[k + 1..]);
      assert name[k] in name;
    }
    MatchNameIs(c, 0, Fields(name, FileOf(l.rest)));
  }

  /** The printed fields, with white space `w` and an extended file name. */
  function ExtendedLine(f: Fields, value: string, w: seq<string>): Line
    requires |w| == 5
  {
    Line("Content-Disposition:", w[0], "form-data;", Quoted(w[1], "name=\"", f.name),
         Rest(if f.filename == "" then None else Some(Quoted(w[2], "filename=\"", f.filename)),
              Tail(Some(Extended(w[3], "filename*=", value)), w[4])))
  }

  /** The part that the expression skips, as ordinary clients send it: fields without quotes are read with any extended
      file name behind them and any white space between. */
  lemma ExtendedIsSkipped(f: Fields, value: string, w: seq<string>)
    requires |w| == 5 && forall i :: 0 <= i < 5 ==> AllSpace(w[i])
    requires OneLine(f.name) && OneLine(f.filename) && '"' !in f.name && '"' !in f.filename
    requires value != "" && NoSpace(value)
    ensures MatchDisposition(PrintLine(ExtendedLine(f, value, w))) == Some(f)
  {
    hide MatchDisposition, PrintLine, IsTail, IsRest, PrintTail, PrintRest;
    LineMatches(ExtendedLine(f, value, w));
  }

  /** With the printer's own white space that is its line and the extended file name. */
  lemma PrintedExtendedIsSkipped(f: Fields, value: string)
    requires OneLine(f.name) && OneLine(f.filename) && '"' !in f.name && '"' !in f.filename
    requires value != "" && NoSpace(value)
    ensures MatchDisposition(DispositionLine(f) + "; filename*=" + value) == Some(f)
  {
    hide MatchDisposition;
    var w := [" ", " ", " ", " ", ""];
    ExtendedIsSkipped(f, value, w);
    PrintedExtended(f, value, w);
  }

  lemma PrintedExtended(f: Fields, value: string, w: seq<string>)
    requires w == [" ", " ", " ", " ", ""]
    ensures PrintLine(ExtendedLine(f, value, w)) == DispositionLine(f) + "; filename*=" + value
  {
    hide FilenameClause, PrintRest;
    var r := ExtendedLine(f, value, w).rest;
    PrintedRest(f.filename, value, r);
    var (file, tail) := (FilenameClause(f.filename), "; filename*=" + value);
    assert file + tail == file + "; filename*=" + value;
    Regrouped("Content-Disposition:", " ", "form-data;", " ", "name=\"", f.name, "\"", PrintRest(r));
    assert "Content-Disposition:" + " " + "form-data;" + " " + "name=\"" == "Content-Disposition: form-data; name=\"";
    Joined("Content-Disposition: form-data; name=\"" + f.name + "\"", file, "; filename*=", value);
  }

  lemma PrintedRest(filename: string, value: string, r: Rest)
    requires r.tail == Tail(Some(Extended(" ", "filename*=", value)), "")
    requires r.file == if filename == "" then None else Some(Quoted(" ", "filename=\"", filename))
    ensures PrintRest(r) == FilenameClause(filename) + ("; filename*=" + value)
  {
    var tail := "; filename*=" + value;
    assert ";" + (" " + ("filename*=" + value)) + "" == tail;
    assert PrintTail(r.tail) == tail;
    if filename != "" {
      Regrouped(";", " ", "filename=\"", "", "", filename, "\"", tail);
      assert ";" + " " + "filename=\"" + "" + "" == "; filename=\"";
      assert "" + ("" + (filename + "\"" + tail)) == filename + "\"" + tail;
    }
  }

  lemma Regrouped(a: string, b: string, c: string, d: string, e: string, x: string, q: string, rest: string)
    ensures a + (b + (c + (d + (e + (x + q + rest))))) == a + b + c + d + e + x + q + rest
  {
  }

  lemma Joined(a: string, b: string, c: string, d: string)
    ensures a + (b + (c + d)) == a + b + c + d
  {
  }
}
