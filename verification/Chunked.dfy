/** Chunked transfer coding: the writer, the reader over a buffered socket, and the bytes between them. */
module Chunked {
  import opened Text
  import opened Wrappers
  import opened UrlCodec
  import opened Streams

  const ULONG_MAX := 0xFFFF_FFFF_FFFF_FFFF
  const RECV_BUFSIZ := 4096

  /** The text a C string function sees: everything before the first NUL. */
  function CString(s: string): string
  {
    s[..IndexOf(s, '\0')]
  }

  /** How many hexadecimal digits `s` starts with. */
  function HexRun(s: string): (n: nat)
    ensures n <= |s|
  {
    if s == "" || HexValue(s[0]).None? then 0 else 1 + HexRun(s[1..])
  }

  function HexNumber(s: string): nat
    requires HexRun(s) == |s|
    decreases |s|
  {
    if s == "" then 0
    else
      HexRunPrefix(s, |s| - 1);
      HexNumber(s[..|s| - 1]) * 16 + HexValue(s[|s| - 1]).value
  }

  lemma {:induction false} HexRunPrefix(s: string, n: nat)
    requires n <= |s| && HexRun(s) == |s|
    ensures HexRun(s[..n]) == n
    ensures n < |s| ==> HexValue(s[n]).Some?
    decreases |s|
  {
    if s != "" && n > 0 {
      HexRunPrefix(s[1..], n - 1);
      assert s[..n][1..] == s[1..][..n - 1];
    }
  }

  lemma {:induction false} HexRunTaken(s: string)
    ensures HexRun(s[..HexRun(s)]) == HexRun(s)
    decreases |s|
  {
    var n := HexRun(s);
    if n > 0 {
      HexRunTaken(s[1..]);
      assert s[..n][1..] == s[1..][..n - 1];
    }
  }

  /** strtoul in base 16: blanks, a sign, a prefix, digits; `None` when there is nothing to convert. */
  function StrToUL(s: string): (r: Option<nat>)
    ensures r.Some? ==> r.value <= ULONG_MAX
  {
    var t := SkipSpaces(s);
    var signed := t != "" && (t[0] == '-' || t[0] == '+');
    var u := if signed then t[1..] else t;
    var prefixed := |u| > 2 && u[0] == '0' && (u[1] == 'x' || u[1] == 'X') && HexValue(u[2]).Some?;
    var v := if prefixed then u[2..] else u;
    HexRunTaken(v);
    var value := HexNumber(v[..HexRun(v)]);
    if HexRun(v) == 0 then None
    else if value > ULONG_MAX then Some(ULONG_MAX)
    else if signed && t[0] == '-' then Some((ULONG_MAX + 1 - value) % (ULONG_MAX + 1))
    else Some(value)
  }

  type Fields = seq<(string, string)>

  /** A header line without its line end: the key before the first colon, the decoded value after it. */
  function HeaderField(line: string): Option<(string, string)>
  {
    var t := TrimRight(line);
    var p := IndexOf(t, ':');
    if p == |t| then None
    else
      var v := TrimLeft(t[p + 1..]);
      if v == "" then None
      else Some((t[..p], if EqualIgnoringCase(t[..p], "Location") then v else DecodeUrl(v, false)))
  }

  /** The end of a line without the blanks before it. */
  method TrimEnd(line: string) returns (end: nat)
    ensures end <= |line| && line[..end] == TrimRight(line)
  {
    end := |line|;
    assert line[..end] == line;
    while 0 < end && IsBlank(line[end - 1])
      invariant 0 <= end <= |line|
      invariant TrimRight(line[..end]) == TrimRight(line)
    {
      assert line[..end][..end - 1] == line[..end - 1];
      end := end - 1;
    }
  }

  method FindColon(line: string, end: nat) returns (p: nat)
    requires end <= |line|
    ensures p == IndexOf(line[..end], ':')
  {
    p := 0;
    while p < end && line[p] != ':'
      invariant 0 <= p <= end
      invariant forall k :: 0 <= k < p ==> line[k] != ':'
    {
      p := p + 1;
    }
    IndexOfIs(line[..end], ':', p);
  }

  method SkipBlanks(line: string, from: nat, end: nat) returns (p: nat)
    requires from <= end <= |line|
    ensures from <= p <= end && line[p..end] == TrimLeft(line[from..end])
  {
    p := from;
    while p < end && IsBlank(line[p])
      invariant from <= p <= end
      invariant TrimLeft(line[p..end]) == TrimLeft(line[from..end])
    {
      assert line[p..end][1..] == line[p + 1..end];
      p := p + 1;
    }
  }

  /** parse_header */
  method ParseHeader(line: string) returns (field: Option<(string, string)>)
    ensures field == HeaderField(line)
  {
    hide DecodeUrl, TrimLeft, TrimRight, IndexOf, EqualIgnoringCase;
    var end := TrimEnd(line);
    var keyEnd := FindColon(line, end);
    if keyEnd == end { return None; }
    assert line[..end][keyEnd + 1..] == line[keyEnd + 1..end];
    assert line[..end][..keyEnd] == line[..keyEnd];
    var p := SkipBlanks(line, keyEnd + 1, end);
    if p < end {
      var key := line[..keyEnd];
      if EqualIgnoringCase(key, "Location") { return Some((key, line[p..end])); }
      var val := DecodeUrlText(line[p..end], false);
      return Some((key, val));
    }
    return None;
  }

  datatype Decoded = Decoded(body: string, trailers: Fields, rest: string)

  function FirstLine(s: string): string
  {
    s[..LineLength(s)]
  }

  function Rest(s: string): string
  {
    s[LineLength(s)..]
  }

  /** The field of a trailer line, if it has one. */
  function TrailerField(line: string): Fields
  {
    if |line| < 2 then []
    else
      match HeaderField(line[..|line| - 2])
      case Some(f) => [f]
      case None => []
  }

  function DecodeTrailers(s: string, trailers: Fields, body: string): Option<Decoded>
    decreases |s|
  {
    if s == "" then None
    else if CString(FirstLine(s)) == CRLF then Some(Decoded(body, trailers, Rest(s)))
    else if |FirstLine(s)| > HEADER_MAX_LENGTH then None
    else DecodeTrailers(Rest(s), trailers + TrailerField(FirstLine(s)), body)
  }

  /** What a reader with room for `capacity` bytes of content makes of a byte stream. */
  function DecodeChunks(s: string, body: string, capacity: nat): Option<Decoded>
    decreases |s|
  {
    if s == "" then None
    else
      var n :- StrToUL(CString(FirstLine(s)));
      var rest := Rest(s);
      if n == ULONG_MAX then None
      else if n == 0 then DecodeTrailers(rest, [], body)
      else if |rest| < n || |body| + n > capacity then None
      else
        var after := rest[n..];
        if after == "" || CString(FirstLine(after)) != CRLF then None
        else DecodeChunks(Rest(after), body + rest[..n], capacity)
  }

  /** read_content_with_length; the receiver appends, and refuses what would exceed its capacity. */
  method ReadContentWithLength(strm: SocketStream, len: nat, body: string, capacity: nat)
    returns (ok: bool, full: string)
    requires strm.Valid()
    modifies strm.Repr
    ensures strm.Valid()
    ensures old(strm.sock.failed) ==> strm.sock.failed
    ensures ok ==>
              && var s := old(strm.Pending());
              && len <= |s| && full == body + s[..len] && strm.Pending() == s[len..]
              && (len > 0 ==> |body| + len <= capacity)
    ensures !ok ==> strm.sock.failed || |old(strm.Pending())| < len || |body| + len > capacity
  {
    ghost var s := strm.Pending();
    var r := 0;
    full := body;
    while r < len
      invariant strm.Valid() && 0 <= r <= len && r <= |s|
      invariant old(strm.sock.failed) ==> strm.sock.failed
      invariant full == body + s[..r] && strm.Pending() == s[r..]
      invariant r > 0 ==> |full| <= capacity
    {
      var want := if len - r < RECV_BUFSIZ then len - r else RECV_BUFSIZ;
      var got := strm.Read(want);
      if got.Failed? || got.data == "" { return false, full; }
      if |full| + |got.data| > capacity { return false, full; }
      NextPiece(s, r, got.data, strm.Pending());
      full := full + got.data;
      r := r + |got.data|;
    }
    return true, full;
  }

  lemma NextPiece(s: string, r: nat, data: string, rest: string)
    requires r <= |s| && s[r..] == data + rest
    ensures r + |data| <= |s| && s[..r + |data|] == s[..r] + data && s[r + |data|..] == rest
  {
    assert s[r..][..|data|] == data && s[r..][|data|..] == rest;
  }

  /** The state of the reader between lines: a line is read, the rest is pending. */
  ghost predicate AtLine(reader: StreamLineReader, s: string)
    reads reader, reader.fixed, reader.strm, reader.strm.Repr
  {
    && reader.Valid() && reader.strm.Valid()
    && s != "" && reader.Line() == FirstLine(s) && reader.strm.Pending() == Rest(s)
  }

  method NextLine(reader: StreamLineReader) returns (ok: bool)
    requires reader.Valid() && reader.strm.Valid()
    modifies reader, reader.fixed, reader.strm.Repr
    ensures reader.Valid() && reader.strm.Valid()
    ensures old(reader.strm.sock.failed) ==> reader.strm.sock.failed
    ensures ok ==> AtLine(reader, old(reader.strm.Pending()))
    ensures !ok ==> reader.strm.sock.failed || old(reader.strm.Pending()) == ""
  {
    ok := reader.GetLine();
  }

  method ReadTrailerField(line: string) returns (fields: Fields)
    ensures fields == TrailerField(line)
  {
    hide HeaderField;
    if |line| < 2 { return []; }
    var field := ParseHeader(line[..|line| - 2]);
    return match field case Some(f) => [f] case None => [];
  }

  lemma TrailersCases(s: string, trailers: Fields, body: string)
    ensures s == "" ==> DecodeTrailers(s, trailers, body).None?
    ensures s != "" && CString(FirstLine(s)) == CRLF ==>
              DecodeTrailers(s, trailers, body) == Some(Decoded(body, trailers, Rest(s)))
    ensures s != "" && CString(FirstLine(s)) != CRLF ==>
              && |Rest(s)| < |s|
              && DecodeTrailers(s, trailers, body)
              == if |FirstLine(s)| > HEADER_MAX_LENGTH then None
                 else DecodeTrailers(Rest(s), trailers + TrailerField(FirstLine(s)), body)
  {
    hide TrailerField, CString;
  }

  /** The trailer loop of read_content_chunked. */
  method ReadTrailers(reader: StreamLineReader, ghost body: string) returns (ok: bool, trailers: Fields)
    requires reader.Valid() && reader.strm.Valid()
    modifies reader, reader.fixed, reader.strm.Repr
    ensures reader.Valid() && reader.strm.Valid()
    ensures old(reader.strm.sock.failed) ==> reader.strm.sock.failed
    ensures var r := DecodeTrailers(old(reader.strm.Pending()), [], body);
            if ok then r == Some(Decoded(body, trailers, reader.strm.Pending())) else reader.strm.sock.failed || r.None?
  {
    hide LineLength, TrailerField, CString, DecodeTrailers;
    ghost var start := reader.strm.Pending();
    ghost var s := start;
    trailers := [];
    TrailersCases(s, trailers, body);
    ok := NextLine(reader);
    if !ok { return; }
    while CString(reader.Line()) != CRLF
      invariant AtLine(reader, s)
      invariant old(reader.strm.sock.failed) ==> reader.strm.sock.failed
      invariant DecodeTrailers(start, [], body) == DecodeTrailers(s, trailers, body)
      decreases |s|
    {
      TrailersCases(s, trailers, body);
      if |reader.Line()| > HEADER_MAX_LENGTH { return false, trailers; }
      var fields := ReadTrailerField(reader.Line());
      trailers := trailers + fields;
      s := Rest(s);
      TrailersCases(s, trailers, body);
      ok := NextLine(reader);
      if !ok { return; }
    }
    TrailersCases(s, trailers, body);
    return true, trailers;
  }

  /** The data of one chunk, its line end, and the next line. */
  method ReadChunkData(reader: StreamLineReader, n: nat, body: string, capacity: nat, ghost s: string)
    returns (ok: bool, full: string)
    requires AtLine(reader, s) && StrToUL(CString(FirstLine(s))) == Some(n) && 0 < n < ULONG_MAX
    modifies reader, reader.fixed, reader.strm.Repr
    ensures reader.Valid() && reader.strm.Valid()
    ensures old(reader.strm.sock.failed) ==> reader.strm.sock.failed
    ensures ok ==>
              && n <= |Rest(s)| && Rest(s)[n..] != "" && full == body + Rest(s)[..n]
              && AtLine(reader, Rest(Rest(s)[n..]))
              && DecodeChunks(s, body, capacity) == DecodeChunks(Rest(Rest(s)[n..]), full, capacity)
              && |Rest(Rest(s)[n..])| < |s|
    ensures !ok ==> reader.strm.sock.failed || DecodeChunks(s, body, capacity).None?
  {
    hide LineLength, StrToUL, CString, DecodeChunks, HexRun;
    ChunkCases(s, body, capacity, n);
    ok, full := ReadContentWithLength(reader.strm, n, body, capacity);
    if !ok { return; }
    ghost var after := reader.strm.Pending();
    ok := NextLine(reader);
    if !ok { return; }
    if CString(reader.Line()) != CRLF { return false, full; }
    NothingLeft(Rest(after), full, capacity);
    ok := NextLine(reader);
  }

  lemma NothingLeft(s: string, body: string, capacity: nat)
    ensures s == "" ==> DecodeChunks(s, body, capacity).None?
  {
  }

  lemma ChunkCases(s: string, body: string, capacity: nat, n: nat)
    requires s != "" && StrToUL(CString(FirstLine(s))) == Some(n) && 0 < n < ULONG_MAX
    ensures |Rest(s)| < n || |body| + n > capacity ==> DecodeChunks(s, body, capacity).None?
    ensures n <= |Rest(s)| && |body| + n <= capacity ==>
              var after := Rest(s)[n..];
              if after == "" || CString(FirstLine(after)) != CRLF then DecodeChunks(s, body, capacity).None?
              else
                && |Rest(after)| < |s|
                && DecodeChunks(s, body, capacity) == DecodeChunks(Rest(after), body + Rest(s)[..n], capacity)
  {
    hide StrToUL, CString;
  }

  /** read_content_chunked: the result depends on the bytes alone, not on how the socket delivers them. */
  method ReadContentChunked(strm: SocketStream, capacity: nat) returns (ok: bool, body: string, trailers: Fields)
    requires strm.Valid()
    modifies strm.Repr
    ensures strm.Valid()
    ensures var r := DecodeChunks(old(strm.Pending()), "", capacity);
            if ok then r == Some(Decoded(body, trailers, strm.Pending())) else strm.sock.failed || r.None?
  {
    hide LineLength, StrToUL, CString, DecodeChunks;
    var buf := new char[16](_ => '\0');
    ghost var start := strm.Pending();
    ghost var s := start;
    body, trailers := "", [];
    var reader := new StreamLineReader(strm, buf);
    NothingLeft(start, body, capacity);
    ok := NextLine(reader);
    if !ok { return; }
    while true
      invariant fresh(reader) && fresh(buf) && reader.fixed == buf && reader.strm == strm
      invariant AtLine(reader, s)
      invariant old(strm.sock.failed) ==> strm.sock.failed
      invariant DecodeChunks(start, "", capacity) == DecodeChunks(s, body, capacity)
      decreases |s|
    {
      var chunkLen := StrToUL(CString(reader.Line()));
      SizeLineCases(s, body, capacity);
      if chunkLen.None? { return false, body, trailers; }
      if chunkLen.value == ULONG_MAX { return false, body, trailers; }
      if chunkLen.value == 0 { break; }
      ok, body := ReadChunkData(reader, chunkLen.value, body, capacity, s);
      if !ok { return; }
      s := Rest(Rest(s)[chunkLen.value..]);
    }
    ok, trailers := ReadTrailers(reader, body);
  }

  lemma SizeLineCases(s: string, body: string, capacity: nat)
    requires s != ""
    ensures var n := StrToUL(CString(FirstLine(s)));
            && (n.None? || n.value == ULONG_MAX ==> DecodeChunks(s, body, capacity).None?)
            && (n == Some(0) ==> DecodeChunks(s, body, capacity) == DecodeTrailers(Rest(s), [], body))
  {
    hide StrToUL, CString, DecodeTrailers;
  }
}
