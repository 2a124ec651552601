/** The byte streams that the chunked reader accepts, as a grammar, and what it makes of them. */
module ChunkedGrammar {
  import opened Text
  import opened Wrappers
  import opened UrlCodec
  import opened Streams
  import opened Chunked
  import opened ChunkedRoundTrip

  /** Bytes through the first line feed. */
  predicate IsLine(s: string)
  {
    s != "" && s[|s| - 1] == LF && forall k :: 0 <= k < |s| - 1 ==> s[k] != LF
  }

  datatype Piece = Piece(sizeLine: string, data: string)

  datatype Message = Message(pieces: seq<Piece>, last: string, trailers: seq<string>)

  predicate PieceOk(p: Piece)
  {
    && IsLine(p.sizeLine) && 0 < |p.data| < ULONG_MAX
    && StrToUL(CString(p.sizeLine)) == Some(|p.data|)
  }

  predicate TrailerOk(t: string)
  {
    IsLine(t) && t != CRLF && |t| <= HEADER_MAX_LENGTH
  }

  ghost predicate MessageOk(m: Message)
  {
    && (forall p :: p in m.pieces ==> PieceOk(p))
    && IsLine(m.last) && StrToUL(CString(m.last)) == Some(0)
    && forall t :: t in m.trailers ==> TrailerOk(t)
  }

  function PrintPieces(ps: seq<Piece>, rest: string): string
  {
    if ps == [] then rest else ps[0].sizeLine + (ps[0].data + (CRLF + PrintPieces(ps[1..], rest)))
  }

  function PrintTrailers(ts: seq<string>, rest: string): string
  {
    if ts == [] then CRLF + rest else ts[0] + PrintTrailers(ts[1..], rest)
  }

  function Print(m: Message, rest: string): string
  {
    PrintPieces(m.pieces, m.last + PrintTrailers(m.trailers, rest))
  }

  function Content(ps: seq<Piece>): string
  {
    if ps == [] then "" else ps[0].data + Content(ps[1..])
  }

  function FieldsOf(ts: seq<string>): Fields
  {
    if ts == [] then [] else TrailerField(ts[0]) + FieldsOf(ts[1..])
  }

  /** A line in front is the first line. */
  lemma LineFirst(line: string, rest: string)
    requires IsLine(line)
    ensures line + rest != "" && FirstLine(line + rest) == line && Rest(line + rest) == rest
  {
    LineLengthIs(line + rest, |line|);
  }

  /** The first line is one, unless the stream ends in it. */
  lemma FirstIsLine(s: string)
    requires s != ""
    ensures s == FirstLine(s) + Rest(s)
    ensures Rest(s) != "" ==> IsLine(FirstLine(s))
  {
    var n := LineLength(s);
    assert FirstLine(s)[n - 1] == s[n - 1];
  }

  lemma BlankLine(line: string)
    requires line != "" && forall k :: 0 <= k < |line| - 1 ==> line[k] != LF
    ensures CString(line) == CRLF <==> line == CRLF
  {
    if line == CRLF { CrlfCString(); }
    if CString(line) == CRLF {
      assert CString(line)[0] == line[0] == CR && CString(line)[1] == line[1] == LF;
    }
  }

  lemma {:induction false} TrailersMatch(ts: seq<string>, rest: string, sofar: Fields, body: string)
    requires forall t :: t in ts ==> TrailerOk(t)
    ensures DecodeTrailers(PrintTrailers(ts, rest), sofar, body) == Some(Decoded(body, sofar + FieldsOf(ts), rest))
    decreases |ts|
  {
    hide CString, LineLength, TrailerField, DecodeTrailers;
    var s := PrintTrailers(ts, rest);
    TrailersCases(s, sofar, body);
    if ts == [] {
      LineFirst(CRLF, rest);
      BlankLine(CRLF);
      assert sofar + [] == sofar;
    } else {
      assert TrailerOk(ts[0]);
      LineFirst(ts[0], PrintTrailers(ts[1..], rest));
      BlankLine(ts[0]);
      TrailersMatch(ts[1..], rest, sofar + TrailerField(ts[0]), body);
      assert sofar + TrailerField(ts[0]) + FieldsOf(ts[1..]) == sofar + FieldsOf(ts);
    }
  }

  lemma {:induction false} TrailersRead(s: string, sofar: Fields, body: string) returns (ts: seq<string>)
    requires DecodeTrailers(s, sofar, body).Some?
    ensures forall t :: t in ts ==> TrailerOk(t)
    ensures s == PrintTrailers(ts, DecodeTrailers(s, sofar, body).value.rest)
    decreases |s|
  {
    hide CString, LineLength, TrailerField, DecodeTrailers;
    TrailersCases(s, sofar, body);
    ts := [];
    FirstIsLine(s);
    FirstHasNoLf(s);
    BlankLine(FirstLine(s));
    if FirstLine(s) != CRLF {
      LinesShrink(s);
      ts := TrailersRead(Rest(s), sofar + TrailerField(FirstLine(s)), body);
      TrailersNotEmpty(Rest(s), sofar + TrailerField(FirstLine(s)), body);
      ts := [FirstLine(s)] + ts;
    }
  }

  lemma FirstHasNoLf(s: string)
    requires s != ""
    ensures FirstLine(s) != "" && forall k :: 0 <= k < |FirstLine(s)| - 1 ==> FirstLine(s)[k] != LF
  {
  }

  lemma LinesShrink(s: string)
    requires s != ""
    ensures |Rest(s)| < |s|
  {
  }

  lemma TrailersNotEmpty(s: string, sofar: Fields, body: string)
    ensures DecodeTrailers(s, sofar, body).Some? ==> s != ""
  {
  }

  lemma {:induction false} PiecesMatch(ps: seq<Piece>, rest: string, body: string, capacity: nat)
    requires (forall p :: p in ps ==> PieceOk(p)) && (ps == [] || |body + Content(ps)| <= capacity)
    ensures DecodeChunks(PrintPieces(ps, rest), body, capacity) == DecodeChunks(rest, body + Content(ps), capacity)
    decreases |ps|
  {
    hide StrToUL, CString, LineLength, DecodeChunks;
    if ps == [] {
      assert body + "" == body;
    } else {
      var (p, more) := (ps[0], PrintPieces(ps[1..], rest));
      assert PieceOk(p);
      var after := CRLF + more;
      LineFirst(p.sizeLine, p.data + after);
      assert (p.data + after)[|p.data|..] == after && (p.data + after)[..|p.data|] == p.data;
      LineFirst(CRLF, more);
      BlankLine(CRLF);
      ChunkCases(PrintPieces(ps, rest), body, capacity, |p.data|);
      assert body + p.data + Content(ps[1..]) == body + Content(ps);
      PiecesMatch(ps[1..], rest, body + p.data, capacity);
    }
  }

  /** Every message of the grammar is decoded, whatever follows it. */
  lemma MessageMatches(m: Message, rest: string, capacity: nat)
    requires MessageOk(m) && |Content(m.pieces)| <= capacity
    ensures DecodeChunks(Print(m, rest), "", capacity)
         == Some(Decoded(Content(m.pieces), FieldsOf(m.trailers), rest))
  {
    hide StrToUL, CString, LineLength, DecodeChunks, PieceOk, TrailerOk;
    var s := m.last + PrintTrailers(m.trailers, rest);
    var body := Content(m.pieces);
    assert "" + body == body;
    PiecesMatch(m.pieces, s, "", capacity);
    LineFirst(m.last, PrintTrailers(m.trailers, rest));
    SizeLineCases(s, body, capacity);
    TrailersMatch(m.trailers, rest, [], body);
    assert [] + FieldsOf(m.trailers) == FieldsOf(m.trailers);
  }

  /** And nothing else is. */
  lemma {:induction false} MessageRead(s: string, body: string, capacity: nat) returns (m: Message)
    requires DecodeChunks(s, body, capacity).Some?
    ensures MessageOk(m) && s == Print(m, DecodeChunks(s, body, capacity).value.rest)
    ensures m.pieces != [] ==> |body + Content(m.pieces)| <= capacity
    decreases |s|
  {
    hide StrToUL, CString, LineLength, DecodeChunks, DecodeTrailers;
    ChunksNotEmpty(s, body, capacity);
    FirstIsLine(s);
    SizeLineCases(s, body, capacity);
    var n := StrToUL(CString(FirstLine(s))).value;
    if n == 0 {
      var ts := TrailersRead(Rest(s), [], body);
      TrailersNotEmpty(Rest(s), [], body);
      m := Message([], FirstLine(s), ts);
    } else {
      ChunkCases(s, body, capacity, n);
      var (data, after) := (Rest(s)[..n], Rest(s)[n..]);
      FirstIsLine(after);
      FirstHasNoLf(after);
      BlankLine(FirstLine(after));
      var more := MessageRead(Rest(after), body + data, capacity);
      assert Rest(s) == data + (CRLF + Rest(after));
      m := Message([Piece(FirstLine(s), data)] + more.pieces, more.last, more.trailers);
      PiecesCons(Piece(FirstLine(s), data), more.pieces, body, capacity);
      assert m.pieces[1..] == more.pieces;
    }
  }

  lemma PiecesCons(p: Piece, ps: seq<Piece>, body: string, capacity: nat)
    requires |body| + |p.data| <= capacity && (ps != [] ==> |body + p.data + Content(ps)| <= capacity)
    ensures |body + Content([p] + ps)| <= capacity
  {
    assert ([p] + ps)[1..] == ps;
  }

  lemma ChunksNotEmpty(s: string, body: string, capacity: nat)
    requires DecodeChunks(s, body, capacity).Some?
    ensures s != "" && StrToUL(CString(FirstLine(s))).Some? && StrToUL(CString(FirstLine(s))).value < ULONG_MAX
  {
    hide StrToUL, CString, DecodeTrailers;
  }

  /** A stream is accepted exactly when it begins with a message of the grammar whose content fits; its content, the
      fields of its trailer lines and what follows it are the result. */
  lemma AcceptedExactly(s: string, capacity: nat, d: Decoded)
    ensures DecodeChunks(s, "", capacity) == Some(d)
       <==> exists m :: MessageOk(m) && Print(m, d.rest) == s
              && d.body == Content(m.pieces) && d.trailers == FieldsOf(m.trailers) && |d.body| <= capacity
  {
    hide MessageOk, Print, DecodeChunks;
    if DecodeChunks(s, "", capacity) == Some(d) {
      var m := MessageRead(s, "", capacity);
      assert "" + Content(m.pieces) == Content(m.pieces);
      MessageMatches(m, d.rest, capacity);
    }
    if m :| MessageOk(m) && Print(m, d.rest) == s
            && d.body == Content(m.pieces) && d.trailers == FieldsOf(m.trailers) && |d.body| <= capacity {
      MessageMatches(m, d.rest, capacity);
    }
  }

  /** A value that does not fit is the largest; a negative one wraps. */
  function Clamped(n: nat, negative: bool): nat
  {
    if n > ULONG_MAX then ULONG_MAX
    else if negative then (ULONG_MAX + 1 - n) % (ULONG_MAX + 1)
    else n
  }

  /** What strtoul makes of a text of this form: white space, a sign, a prefix, digits and something else. */
  lemma NumberIsRead(blank: string, sign: string, prefix: string, digits: string, rest: string)
    requires AllSpace(blank) && sign in {"", "+", "-"} && prefix in {"", "0x", "0X"}
    requires digits != "" && AllHex(digits) && (rest != "" ==> HexValue(rest[0]).None?)
    requires prefix == "" && digits == "0" && |rest| > 1 && (rest[0] == 'x' || rest[0] == 'X') ==> HexValue(rest[1]).None?
    ensures HexRun(digits) == |digits|
    ensures StrToUL(blank + (sign + (prefix + (digits + rest)))) == Some(Clamped(HexNumber(digits), sign == "-"))
  {
    hide HexValue, HexNumber, HexRun, SkipSpaces, StrToUL;
    var v := digits + rest;
    var u := prefix + v;
    HexRunAll(digits, "");
    assert digits + "" == digits;
    HexRunAll(digits, rest);
    HexCharFacts(digits[0]);
    ZeroIsHex();
    HexCharFacts('0');
    assert u[0] == if prefix == "" then digits[0] else '0';
    SignSplits(sign, u);
    SkipSpacesIs(blank, sign + u);
    PrefixSplits(prefix, digits, rest);
    Evaluated(blank + (sign + u), sign, u, digits, rest);
  }

  lemma Evaluated(s: string, sign: string, u: string, digits: string, rest: string)
    requires digits != "" && HexRun(digits) == HexRun(digits + rest) == |digits|
    requires var t := SkipSpaces(s);
             && t == sign + u && t != "" && u != "" && (t[0] == '-' <==> sign == "-")
             && u == if t[0] == '-' || t[0] == '+' then t[1..] else t
    requires var prefixed := |u| > 2 && u[0] == '0' && (u[1] == 'x' || u[1] == 'X') && HexValue(u[2]).Some?;
             digits + rest == if prefixed then u[2..] else u
    ensures StrToUL(s) == Some(Clamped(HexNumber(digits), sign == "-"))
  {
    hide HexValue, HexNumber, HexRun, SkipSpaces;
    assert (digits + rest)[..|digits|] == digits;
  }

  lemma SignSplits(sign: string, u: string)
    requires sign in {"", "+", "-"} && u != "" && !IsSpace(u[0]) && u[0] != '-' && u[0] != '+'
    ensures var t := sign + u;
            var signed := t[0] == '-' || t[0] == '+';
            && !IsSpace(t[0]) && (signed <==> sign != "") && (t[0] == '-' <==> sign == "-")
            && u == if signed then t[1..] else t
  {
    assert sign == "" ==> sign + u == u;
  }

  lemma PrefixSplits(prefix: string, digits: string, rest: string)
    requires prefix in {"", "0x", "0X"} && digits != "" && AllHex(digits) && (rest != "" ==> HexValue(rest[0]).None?)
    requires prefix == "" && digits == "0" && |rest| > 1 && (rest[0] == 'x' || rest[0] == 'X') ==> HexValue(rest[1]).None?
    ensures var u := prefix + (digits + rest);
            var prefixed := |u| > 2 && u[0] == '0' && (u[1] == 'x' || u[1] == 'X') && HexValue(u[2]).Some?;
            digits + rest == if prefixed then u[2..] else u
  {
    hide HexValue;
    var v := digits + rest;
    var u := prefix + v;
    if prefix == "" {
      assert u == v && u[0] == digits[0];
      HexCharFacts(digits[0]);
      if |digits| > 1 {
        assert u[1] == digits[1];
        HexCharFacts(digits[1]);
      } else {
        assert forall k :: 0 <= k < |rest| ==> u[k + 1] == rest[k];
      }
    } else {
      assert u[0] == '0' && u[1] == prefix[1] && u[2] == digits[0] && u[2..] == v;
    }
  }

  /** Without a digit there is no number. */
  lemma NoNumber(blank: string, sign: string, rest: string)
    requires AllSpace(blank) && sign in {"", "+", "-"}
    requires rest != "" ==> HexValue(rest[0]).None? && !IsSpace(rest[0]) && rest[0] != '-' && rest[0] != '+'
    ensures StrToUL(blank + (sign + rest)).None?
  {
    hide HexValue, HexNumber;
    var t := sign + rest;
    ZeroIsHex();
    assert sign != "" ==> t[0] == sign[0] && t[1..] == rest;
    assert sign == "" ==> t == rest;
    SkipSpacesIs(blank, t);
  }

  lemma ZeroIsHex()
    ensures HexValue('0').Some?
  {
  }

  /** A line is a field only with a colon and something behind it. */
  lemma NoField(line: string)
    requires ':' !in line || forall k :: IndexOf(line, ':') < k < |line| ==> IsBlank(line[k])
    ensures HeaderField(line).None?
  {
    hide UrlCodec.DecodeUrl;
    var n := TrimmedLength(line);
    var t := line[..n];
    var i := IndexOf(line, ':');
    forall k | 0 <= k < |line| && i == |line| ensures line[k] != ':' { }
    if i < n {
      assert forall k :: 0 <= k < i ==> t[k] == line[k];
      IndexOfIs(t, ':', i);
      assert ':' in line by { assert line[i] == ':'; }
      BlankTail(line, i, n);
    } else {
      assert forall k :: 0 <= k < n ==> t[k] == line[k];
      IndexOfIs(t, ':', n);
    }
  }

  lemma {:induction false} TrimmedLength(s: string) returns (n: nat)
    ensures n <= |s| && TrimRight(s) == s[..n]
    ensures n > 0 ==> !IsBlank(s[n - 1])
    decreases |s|
  {
    n := |s|;
    if s != "" && IsBlank(s[|s| - 1]) {
      n := TrimmedLength(s[..|s| - 1]);
      assert s[..|s| - 1][..n] == s[..n];
    } else {
      assert s[..n] == s;
    }
  }

  /** A colon that only blanks follow is the last character when these are trimmed. */
  lemma BlankTail(line: string, i: nat, n: nat)
    requires i < n <= |line| && (n > 0 ==> !IsBlank(line[n - 1]))
    requires forall k :: i < k < |line| ==> IsBlank(line[k])
    ensures n == i + 1 && line[..n][i + 1..] == ""
  {
  }
}
