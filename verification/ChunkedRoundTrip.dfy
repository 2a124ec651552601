/** What the chunked reader makes of the chunked writer's output. */
module ChunkedRoundTrip {
  import opened Text
  import opened Wrappers
  import opened UrlCodec
  import opened Streams
  import opened Chunked
  import opened ChunkedWriter

  predicate NoLf(s: string)
  {
    forall k :: 0 <= k < |s| ==> s[k] != LF
  }

  /** A printed line in front of more bytes is the first line. */
  lemma FirstLineIs(line: string, rest: string)
    requires NoLf(line)
    ensures var s := line + CRLF + rest; s != "" && FirstLine(s) == line + CRLF && Rest(s) == rest
  {
    var s := line + CRLF + rest;
    LineLengthIs(s, |line| + 2);
  }

  lemma HexDigitValue(n: nat)
    requires n < 16
    ensures HexValue(HexDigit(n)) == Some(n)
  {
  }

  /** The characters of a printed size. */
  predicate AllHex(s: string)
  {
    forall k :: 0 <= k < |s| ==> HexValue(s[k]).Some?
  }

  lemma {:induction false} HexIsHex(n: nat)
    ensures Hex(n) != "" && AllHex(Hex(n))
    decreases n
  {
    hide HexDigit, HexValue;
    HexDigitValue(n % 16);
    if n >= 16 { HexIsHex(n / 16); }
  }

  lemma {:induction false} HexRunAll(s: string, rest: string)
    requires AllHex(s) && (rest != "" ==> HexValue(rest[0]).None?)
    ensures HexRun(s + rest) == |s|
    decreases |s|
  {
    if s == "" {
      assert s + rest == rest;
    } else {
      assert (s + rest)[1..] == s[1..] + rest;
      HexRunAll(s[1..], rest);
    }
  }

  lemma {:induction false} HexNumberOfHex(n: nat)
    ensures HexRun(Hex(n)) == |Hex(n)| && HexNumber(Hex(n)) == n
    decreases n
  {
    hide HexDigit, HexValue;
    var s := Hex(n);
    HexIsHex(n);
    HexRunAll(s, "");
    assert s + "" == s;
    HexDigitValue(n % 16);
    var high := if n < 16 then "" else Hex(n / 16);
    assert s[..|s| - 1] == high && s[|s| - 1] == HexDigit(n % 16);
    HexRunPrefix(s, |s| - 1);
    if n >= 16 { HexNumberOfHex(n / 16); }
    assert HexNumber(high) == n / 16;
  }

  lemma HexCharFacts(c: char)
    requires HexValue(c).Some?
    ensures !IsSpace(c) && c != '-' && c != '+' && c != 'x' && c != 'X' && c != '\0' && c != LF
  {
  }

  /** What may follow the digits of a size: nothing that could belong to the number. */
  predicate Extension(ext: string)
  {
    NoLf(ext) && (ext != "" ==> HexValue(ext[0]).None? && ext[0] != 'x' && ext[0] != 'X')
  }

  lemma SizeRead(n: nat, ext: string)
    requires n <= ULONG_MAX && (ext != "" ==> HexValue(ext[0]).None? && ext[0] != 'x' && ext[0] != 'X')
    ensures StrToUL(Hex(n) + ext) == Some(n)
  {
    hide HexValue, HexNumber, Hex;
    var h := Hex(n);
    var s := h + ext;
    HexIsHex(n);
    HexCharFacts(h[0]);
    if |h| > 1 { HexCharFacts(h[1]); }
    HexRunAll(h, ext);
    assert s[..|h|] == h;
    HexNumberOfHex(n);
  }

  /** The C string of a size line is the size and a beginning of the rest. */
  lemma SizeLineString(h: string, rest: string) returns (x: string)
    requires AllHex(h)
    ensures CString(h + rest) == h + x && (x != "" ==> rest != "" && x[0] == rest[0])
  {
    hide HexValue;
    var (s, k) := (h + rest, IndexOf(rest, '\0'));
    forall i | 0 <= i < |h| ensures s[i] != '\0' { HexCharFacts(h[i]); }
    IndexOfIs(s, '\0', |h| + k);
    x := rest[..k];
    assert s[..|h| + k] == h + x;
  }

  /** The size line is read back, with any extension behind the size. */
  lemma SizeLineRead(n: nat, ext: string)
    requires n <= ULONG_MAX && Extension(ext)
    ensures NoLf(Hex(n) + ext)
    ensures StrToUL(CString(Hex(n) + ext + CRLF)) == Some(n)
  {
    hide Hex, StrToUL, CString;
    var h := Hex(n);
    HexIsHex(n);
    forall k | 0 <= k < |h| ensures h[k] != LF { HexCharFacts(h[k]); }
    var x := SizeLineString(h, ext + CRLF);
    assert h + ext + CRLF == h + (ext + CRLF);
    assert (ext + CRLF)[0] == if ext == "" then CR else ext[0];
    CrIsNotHex();
    SizeRead(n, x);
  }

  lemma CrIsNotHex()
    ensures HexValue(CR).None? && CR != 'x' && CR != 'X'
  {
  }

  /** A chunk as others may print it: with an extension on its size line. */
  function ExtendedChunk(data: string, ext: string): string
  {
    Hex(|data|) + ext + CRLF + data + CRLF
  }

  /** One printed chunk is decoded. */
  lemma ChunkRead(data: string, ext: string, rest: string, body: string, capacity: nat)
    requires 0 < |data| < ULONG_MAX && |body| + |data| <= capacity && Extension(ext)
    ensures DecodeChunks(ExtendedChunk(data, ext) + rest, body, capacity) == DecodeChunks(rest, body + data, capacity)
  {
    hide Hex, StrToUL, CString, DecodeChunks, LineLength, Extension;
    var h := Hex(|data|) + ext;
    var after := CRLF + rest;
    var s := h + CRLF + (data + after);
    assert ExtendedChunk(data, ext) + rest == s;
    SizeLineRead(|data|, ext);
    FirstLineIs(h, data + after);
    assert (data + after)[|data|..] == after && (data + after)[..|data|] == data;
    FirstLineIs("", rest);
    assert "" + CRLF + rest == after && "" + CRLF == CRLF;
    CrlfCString();
    ChunkCases(s, body, capacity, |data|);
  }

  lemma CrlfCString()
    ensures CString(CRLF) == CRLF
  {
    IndexOfIs(CRLF, '\0', 2);
  }

  /** A trailer that survives the trip: the reader trims, decodes and splits at the first colon. */
  predicate PrintableTrailer(kv: (string, string))
  {
    && ':' !in kv.0 && NoLf(kv.0)
    && kv.1 != "" && Trimmed(kv.1) && NoLf(kv.1)
    && ('%' in kv.1 ==> EqualIgnoringCase(kv.0, "Location"))
    && |TrailerLine(kv)| <= HEADER_MAX_LENGTH
  }

  lemma HeaderFieldPrinted(kv: (string, string))
    requires PrintableTrailer(kv)
    ensures HeaderField(kv.0 + ": " + kv.1) == Some(kv)
  {
    hide DecodeUrl;
    var t := kv.0 + ": " + kv.1;
    assert t[|t| - 1] == kv.1[|kv.1| - 1];
    assert TrimRight(t) == t;
    forall k | 0 <= k < |kv.0| ensures t[k] != ':' { assert t[k] == kv.0[k] && kv.0[k] in kv.0; }
    IndexOfIs(t, ':', |kv.0|);
    assert t[..|kv.0|] == kv.0 && t[|kv.0| + 1..] == " " + kv.1 && (" " + kv.1)[1..] == kv.1;
    assert TrimLeft(" " + kv.1) == kv.1;
    if '%' !in kv.1 { DecodePlain(kv.1, false); }
  }

  lemma TrailerLineRead(kv: (string, string), rest: string)
    requires PrintableTrailer(kv)
    ensures var s := TrailerLine(kv) + rest;
            && s != "" && FirstLine(s) == TrailerLine(kv) && Rest(s) == rest
            && CString(FirstLine(s)) != CRLF && TrailerField(FirstLine(s)) == [kv]
  {
    hide HeaderField, LineLength;
    var t := kv.0 + ": " + kv.1;
    assert NoLf(t);
    assert TrailerLine(kv) + rest == t + CRLF + rest;
    FirstLineIs(t, rest);
    assert (t + CRLF)[..|t + CRLF| - 2] == t;
    HeaderFieldPrinted(kv);
    var c := CString(TrailerLine(kv));
    assert |c| >= 2 ==> c[1] == t[1];
  }

  lemma {:induction false} TrailersRead(trailers: Fields, sofar: Fields, tail: string, body: string)
    requires forall kv :: kv in trailers ==> PrintableTrailer(kv)
    ensures DecodeTrailers(TrailerLines(trailers) + CRLF + tail, sofar, body) == Some(Decoded(body, sofar + trailers, tail))
    decreases |trailers|
  {
    hide TrailerLine, CString, LineLength, TrailerField, DecodeTrailers, PrintableTrailer;
    var s := TrailerLines(trailers) + CRLF + tail;
    TrailersCases(s, sofar, body);
    if trailers == [] {
      assert s == "" + CRLF + tail && "" + CRLF == CRLF && sofar + trailers == sofar;
      FirstLineIs("", tail);
      CrlfCString();
    } else {
      var rest := TrailerLines(trailers[1..]) + CRLF + tail;
      assert s == TrailerLine(trailers[0]) + rest;
      TrailerLineRead(trailers[0], rest);
      LineLimit(trailers[0]);
      TrailersRead(trailers[1..], sofar + [trailers[0]], tail, body);
      assert sofar + [trailers[0]] + trailers[1..] == sofar + trailers;
    }
  }

  lemma LineLimit(kv: (string, string))
    requires PrintableTrailer(kv)
    ensures |TrailerLine(kv)| <= HEADER_MAX_LENGTH
  {
  }

  function ExtendedTerminator(trailers: Fields, ext: string): string
  {
    "0" + ext + CRLF + TrailerLines(trailers) + CRLF
  }

  lemma ExtendedTerminatorRead(trailers: Fields, ext: string, tail: string, body: string, capacity: nat)
    requires Extension(ext) && forall kv :: kv in trailers ==> PrintableTrailer(kv)
    ensures DecodeChunks(ExtendedTerminator(trailers, ext) + tail, body, capacity) == Some(Decoded(body, trailers, tail))
  {
    hide StrToUL, CString, DecodeChunks, LineLength, TrailerLines, PrintableTrailer, Extension;
    var rest := TrailerLines(trailers) + CRLF + tail;
    var s := "0" + ext + CRLF + rest;
    assert ExtendedTerminator(trailers, ext) + tail == s;
    ZeroIsPrinted();
    SizeLineRead(0, ext);
    FirstLineIs("0" + ext, rest);
    SizeLineCases(s, body, capacity);
    TrailersRead(trailers, [], tail, body);
    assert [] + trailers == trailers;
  }

  lemma ZeroIsPrinted()
    ensures Hex(0) == "0"
  {
  }

  function Puts(pieces: seq<string>): seq<Action>
  {
    if pieces == [] then [] else [Put(pieces[0])] + Puts(pieces[1..])
  }

  /** Each piece fits one chunk. */
  ghost predicate Writable(pieces: seq<string>)
  {
    forall p :: p in pieces ==> |p| < ULONG_MAX
  }

  lemma PlainChunk(data: string)
    ensures ExtendedChunk(data, "") == Chunk(data)
  {
    assert Hex(|data|) + "" == Hex(|data|);
  }

  lemma TerminatorRead(trailers: Fields, tail: string, body: string, capacity: nat)
    requires forall kv :: kv in trailers ==> PrintableTrailer(kv)
    ensures DecodeChunks(Terminator(trailers) + tail, body, capacity) == Some(Decoded(body, trailers, tail))
  {
    hide DecodeChunks, PrintableTrailer;
    assert "0" + "" == "0";
    ExtendedTerminatorRead(trailers, "", tail, body, capacity);
  }

  lemma {:induction false} PutsRead(pieces: seq<string>, rest: string, body: string, capacity: nat)
    requires Writable(pieces) && |body| + |Concat(pieces)| <= capacity
    ensures DecodeChunks(EmitAll(Puts(pieces)) + rest, body, capacity) == DecodeChunks(rest, body + Concat(pieces), capacity)
    decreases |pieces|
  {
    hide Chunk, DecodeChunks, EmitAll;
    EmitPuts(pieces);
    if pieces == [] {
      assert EmitAll(Puts(pieces)) + rest == rest && body + Concat(pieces) == body;
    } else {
      var more := EmitAll(Puts(pieces[1..]));
      AppendAssociates(Emit(Put(pieces[0])), more, rest);
      AppendAssociates(body, pieces[0], Concat(pieces[1..]));
      if pieces[0] != "" {
        ChunkRead(pieces[0], "", more + rest, body, capacity);
        PlainChunk(pieces[0]);
      }
      PutsRead(pieces[1..], rest, body + pieces[0], capacity);
      assert body + "" == body && "" + (more + rest) == more + rest;
    }
  }

  lemma EmitPuts(pieces: seq<string>)
    ensures EmitAll(Puts(pieces)) == if pieces == [] then "" else Emit(Put(pieces[0])) + EmitAll(Puts(pieces[1..]))
  {
    hide Emit;
    if pieces != [] {
      assert Puts(pieces)[1..] == Puts(pieces[1..]);
    }
  }

  /** The calls' actions, one after the other. */
  function AllActions(calls: seq<Call>): seq<Action>
  {
    if calls == [] then [] else calls[0].actions + AllActions(calls[1..])
  }

  /** Writes of any pieces, then one `done`, cut into provider calls in any way. */
  ghost predicate Proper(calls: seq<Call>, pieces: seq<string>, trailers: Fields)
  {
    && Writable(pieces)
    && AllActions(calls) == Puts(pieces) + [Done(trailers)]
    && forall c :: c in calls ==> c.ok
  }

  /** The call's last write is empty: the writer takes it for the end. */
  predicate EndsEmpty(c: Call)
  {
    c.actions != [] && c.actions[|c.actions| - 1] == Put("")
  }

  /** The writer is never given an empty write at the end of a call. */
  predicate NoEarlyEnd(calls: seq<Call>)
  {
    forall c :: c in calls ==> !EndsEmpty(c)
  }

  lemma NoEarlyEndCons(calls: seq<Call>)
    requires calls != []
    ensures NoEarlyEnd(calls) <==> !EndsEmpty(calls[0]) && NoEarlyEnd(calls[1..])
  {
    assert calls == [calls[0]] + calls[1..];
  }

  /** One call of the writer's loop. */
  lemma PerformedCons(calls: seq<Call>)
    requires calls != [] && calls[0].ok
    ensures Performed(calls, true) == calls[0].actions + Performed(calls[1..], Available(calls[0].actions, true))
    ensures Performed(calls[1..], false) == []
  {
  }

  lemma {:induction false} PutsCut(pieces: seq<string>, n: nat)
    requires n <= |pieces|
    ensures |Puts(pieces)| == |pieces|
    ensures Puts(pieces)[..n] == Puts(pieces[..n]) && Puts(pieces)[n..] == Puts(pieces[n..])
    ensures n < |pieces| ==> Puts(pieces)[n] == Put(pieces[n])
    decreases |pieces|
  {
    if n > 0 {
      PutsCut(pieces[1..], n - 1);
      assert pieces[..n][1..] == pieces[1..][..n - 1] && pieces[n..] == pieces[1..][n - 1..];
      assert Puts(pieces)[..n] == [Put(pieces[0])] + Puts(pieces[1..])[..n - 1];
      assert Puts(pieces)[n..] == Puts(pieces[1..])[n - 1..];
    } else if pieces != [] {
      PutsCut(pieces[1..], 0);
      assert pieces[0..] == pieces && pieces[..0] == [];
    }
  }

  /** The first call does a number of the writes, or all of them and the `done`. */
  lemma FirstCall(calls: seq<Call>, pieces: seq<string>, trailers: Fields)
    requires calls != [] && AllActions(calls) == Puts(pieces) + [Done(trailers)]
    ensures var (first, rest) := (calls[0].actions, AllActions(calls[1..]));
            if |first| <= |pieces| then
              first == Puts(pieces[..|first|]) && rest == Puts(pieces[|first|..]) + [Done(trailers)]
            else first == Puts(pieces) + [Done(trailers)] && rest == []
    ensures var first := calls[0].actions;
            first == [] || first[|first| - 1] == if |first| <= |pieces| then Put(pieces[|first| - 1]) else Done(trailers)
  {
    var (first, rest) := (calls[0].actions, AllActions(calls[1..]));
    assert AllActions(calls) == first + rest;
    hide Puts, AllActions;
    var puts := Puts(pieces);
    PutsCut(pieces, 0);
    CutSnoc(first, rest, puts, Done(trailers));
    if |first| <= |pieces| {
      PutsCut(pieces, |first|);
      if first != [] { PutsCut(pieces, |first| - 1); }
    }
  }

  /** A sequence with one last element, cut in two. */
  lemma CutSnoc(first: seq<Action>, rest: seq<Action>, front: seq<Action>, last: Action)
    requires first + rest == front + [last]
    ensures |first| <= |front| ==> first == front[..|first|] && rest == front[|first|..] + [last]
    ensures |first| > |front| ==> first == front + [last] && rest == []
    ensures first == [] || first[|first| - 1] == if |first| <= |front| then front[|first| - 1] else last
  {
    var all := front + [last];
    assert first == all[..|first|] && rest == all[|first|..];
    if |first| <= |front| {
      assert all[..|first|] == front[..|first|] && all[|first|..] == front[|first|..] + [last];
    } else {
      assert |first| == |all|;
    }
  }

  lemma {:induction false} NothingLeftToDo(calls: seq<Call>, available: bool)
    requires AllActions(calls) == []
    ensures Performed(calls, available) == []
    ensures NoEarlyEnd(calls)
    decreases |calls|
  {
    if calls != [] {
      assert calls[0].actions == [] && AllActions(calls[1..]) == [];
      assert calls == [calls[0]] + calls[1..];
      NothingLeftToDo(calls[1..], Available(calls[0].actions, available));
    }
  }

  /** The writer performs all actions, unless a call ends with an empty write: then it stops there. */
  lemma {:induction false} PerformedExact(calls: seq<Call>, pieces: seq<string>, trailers: Fields) returns (n: nat)
    requires Proper(calls, pieces, trailers)
    ensures n <= |pieces|
    ensures Performed(calls, true)
         == if NoEarlyEnd(calls) then Puts(pieces) + [Done(trailers)] else Puts(pieces[..n])
    decreases |calls|
  {
    hide Puts, NoEarlyEnd, Performed;
    var (first, rest) := (calls[0].actions, calls[1..]);
    assert calls == [calls[0]] + rest;
    FirstCall(calls, pieces, trailers);
    NoEarlyEndCons(calls);
    PerformedCons(calls);
    n := 0;
    if |first| > |pieces| {
      NothingLeftToDo(rest, Available(first, true));
      assert first + [] == first;
    } else if EndsEmpty(calls[0]) {
      n := |first|;
      assert first + [] == first;
    } else {
      n := PerformedExact(rest, pieces[|first|..], trailers);
      assert Available(first, true);
      n := |first| + n;
      MoreWrites(pieces, |first|, n, trailers);
    }
  }

  lemma CutJoins(all: seq<Action>, m: nat, more: seq<Action>)
    requires m <= |all|
    ensures all[..m] + (all[m..] + more) == all + more && all[..m] + all[m..] == all
  {
  }

  lemma MoreWrites(pieces: seq<string>, m: nat, n: nat, trailers: Fields)
    requires m <= n <= |pieces|
    ensures Puts(pieces[..m]) + (Puts(pieces[m..]) + [Done(trailers)]) == Puts(pieces) + [Done(trailers)]
    ensures Puts(pieces[..m]) + Puts(pieces[m..][..n - m]) == Puts(pieces[..n])
  {
    hide Puts;
    PutsCut(pieces, m);
    PutsCut(pieces[..n], m);
    assert pieces[..n][..m] == pieces[..m] && pieces[..n][m..] == pieces[m..][..n - m];
    CutJoins(Puts(pieces), m, [Done(trailers)]);
    CutJoins(Puts(pieces[..n]), m, []);
  }

  /** Decoding takes at least the terminator away. */
  lemma {:induction false} DecodedRestShorter(s: string, body: string, capacity: nat)
    ensures var d := DecodeChunks(s, body, capacity); d.Some? ==> |d.value.rest| < |s|
    decreases |s|
  {
    hide StrToUL, CString, LineLength;
    if s != "" {
      var n := StrToUL(CString(FirstLine(s)));
      if n == Some(0) { TrailersRestShorter(Rest(s), [], body); }
      if n.Some? && 0 < n.value <= |Rest(s)| {
        var after := Rest(s)[n.value..];
        DecodedRestShorter(Rest(after), body + Rest(s)[..n.value], capacity);
      }
    }
  }

  lemma {:induction false} TrailersRestShorter(s: string, trailers: Fields, body: string)
    ensures var d := DecodeTrailers(s, trailers, body); d.Some? ==> |d.value.rest| < |s|
    decreases |s|
  {
    hide CString, LineLength, TrailerField;
    if s != "" { TrailersRestShorter(Rest(s), trailers + TrailerField(FirstLine(s)), body); }
  }

  /** The writer's output, followed by any bytes, gives the content and the trailers and leaves the stream at those
      bytes if and only if no call ends with an empty write. */
  lemma WriterCompletesExactly(calls: seq<Call>, pieces: seq<string>, trailers: Fields, tail: string, capacity: nat)
    requires Proper(calls, pieces, trailers) && |Concat(pieces)| <= capacity
    requires forall kv :: kv in trailers ==> PrintableTrailer(kv)
    ensures DecodeChunks(EmitAll(Performed(calls, true)) + tail, "", capacity)
         == Some(Decoded(Concat(pieces), trailers, tail))
       <==> NoEarlyEnd(calls)
  {
    hide DecodeChunks, Terminator, EmitAll, Performed, Puts, PrintableTrailer;
    var n := PerformedExact(calls, pieces, trailers);
    if NoEarlyEnd(calls) {
      ChunkedRoundTrip(calls, pieces, trailers, tail, capacity);
    } else {
      var sent := pieces[..n];
      ConcatPart(pieces, n);
      PutsRead(sent, tail, "", capacity);
      DecodedRestShorter(tail, "" + Concat(sent), capacity);
    }
  }

  lemma {:induction false} ConcatPart(pieces: seq<string>, n: nat)
    requires n <= |pieces|
    ensures |Concat(pieces[..n])| <= |Concat(pieces)|
    decreases n
  {
    if n > 0 {
      assert pieces[..n][1..] == pieces[1..][..n - 1];
      ConcatPart(pieces[1..], n - 1);
    }
  }

  /** The round trip: content and trailers arrive, and the stream is left exactly at what follows. */
  lemma ChunkedRoundTrip(calls: seq<Call>, pieces: seq<string>, trailers: Fields, tail: string, capacity: nat)
    requires Proper(calls, pieces, trailers) && |Concat(pieces)| <= capacity
    requires NoEarlyEnd(calls)
    requires forall kv :: kv in trailers ==> PrintableTrailer(kv)
    ensures DecodeChunks(EmitAll(Performed(calls, true)) + tail, "", capacity)
         == Some(Decoded(Concat(pieces), trailers, tail))
  {
    hide DecodeChunks, Terminator, EmitAll, Performed, Puts, PrintableTrailer;
    var end := Terminator(trailers) + tail;
    var n := PerformedExact(calls, pieces, trailers);
    EmitAllAppend(Puts(pieces), [Done(trailers)]);
    EmitDone(trailers);
    AppendAssociates(EmitAll(Puts(pieces)), Terminator(trailers), tail);
    PutsRead(pieces, end, "", capacity);
    assert "" + Concat(pieces) == Concat(pieces);
    TerminatorRead(trailers, tail, Concat(pieces), capacity);
  }

  lemma EmitDone(trailers: Fields)
    ensures EmitAll([Done(trailers)]) == Emit(Done(trailers)) == Terminator(trailers)
  {
    assert EmitAll([Done(trailers)]) == Emit(Done(trailers)) + EmitAll([]);
  }

  /** A message of chunks with extensions: each chunk's data and extension. */
  function ExtendedChunks(chunks: seq<(string, string)>): string
  {
    if chunks == [] then "" else ExtendedChunk(chunks[0].0, chunks[0].1) + ExtendedChunks(chunks[1..])
  }

  function DataOf(chunks: seq<(string, string)>): string
  {
    if chunks == [] then "" else chunks[0].0 + DataOf(chunks[1..])
  }

  ghost predicate Chunks(chunks: seq<(string, string)>)
  {
    forall c :: c in chunks ==> 0 < |c.0| < ULONG_MAX && Extension(c.1)
  }

  lemma {:induction false} ChunksRead(chunks: seq<(string, string)>, rest: string, body: string, capacity: nat)
    requires Chunks(chunks) && |body| + |DataOf(chunks)| <= capacity
    ensures DecodeChunks(ExtendedChunks(chunks) + rest, body, capacity)
         == DecodeChunks(rest, body + DataOf(chunks), capacity)
    decreases |chunks|
  {
    hide ExtendedChunk, DecodeChunks, Extension;
    if chunks == [] {
      assert ExtendedChunks(chunks) + rest == rest && body + DataOf(chunks) == body;
    } else {
      var (data, ext) := chunks[0];
      var more := ExtendedChunks(chunks[1..]);
      AppendAssociates(ExtendedChunk(data, ext), more, rest);
      AppendAssociates(body, data, DataOf(chunks[1..]));
      ChunkRead(data, ext, more + rest, body, capacity);
      ChunksRead(chunks[1..], rest, body + data, capacity);
    }
  }

  /** Extensions on the size lines, the last one's too, make no difference. */
  lemma ExtensionsAreIgnored(chunks: seq<(string, string)>, ext: string, trailers: Fields, tail: string, capacity: nat)
    requires Chunks(chunks) && |DataOf(chunks)| <= capacity && Extension(ext)
    requires forall kv :: kv in trailers ==> PrintableTrailer(kv)
    ensures DecodeChunks(ExtendedChunks(chunks) + (ExtendedTerminator(trailers, ext) + tail), "", capacity)
         == Some(Decoded(DataOf(chunks), trailers, tail))
  {
    hide DecodeChunks, ExtendedChunks, ExtendedTerminator, Extension, PrintableTrailer;
    ChunksRead(chunks, ExtendedTerminator(trailers, ext) + tail, "", capacity);
    assert "" + DataOf(chunks) == DataOf(chunks);
    ExtendedTerminatorRead(trailers, ext, tail, DataOf(chunks), capacity);
  }

  /** The notation of sizes: sixteen digits, each place worth sixteen of the next. */
  lemma HexIs(n: nat, d: nat)
    requires d < 16
    ensures Hex(16 * n + d) == (if n == 0 then "" else Hex(n)) + [HexDigit(d)]
  {
    hide HexDigit;
    var m := 16 * n + d;
    assert m / 16 == n && m % 16 == d;
    assert m < 16 <==> n == 0;
  }

  lemma HexDigitIs(d: nat)
    requires d < 16
    ensures HexDigit(d) == "0123456789abcdef"[d]
  {
  }

  /** A field's value is trimmed and, but for Location, decoded. */
  lemma EncodedFieldIsRead(key: string, blank: string, value: string, end: string)
    requires ':' !in key && !EqualIgnoringCase(key, "Location") && value != "" && Bytes(value)
    requires (forall c :: c in blank ==> IsBlank(c)) && forall c :: c in end ==> IsBlank(c)
    ensures HeaderField(key + ":" + blank + EncodeQuery(value) + end) == Some((key, value))
  {
    hide DecodeUrl, EncodeQuery;
    var e := EncodeQuery(value);
    EncodedIsTrimmed(value);
    FieldParts(key, blank, e, end);
    DecodeEncoded(value, false);
  }

  lemma EncodedIsTrimmed(value: string)
    requires value != "" && Bytes(value)
    ensures EncodeQuery(value) != "" && Trimmed(EncodeQuery(value))
  {
    hide EncodeQuery, EncodeChar;
    var e := EncodeQuery(value);
    EncodedIsSafe(value);
    EncodedNotEmpty(value);
    assert e[0] in e && e[|e| - 1] in e;
  }

  lemma EncodedNotEmpty(value: string)
    requires value != "" && Bytes(value)
    ensures EncodeQuery(value) != ""
  {
  }

  /** The trimmed text behind the first colon. */
  lemma FieldParts(key: string, blank: string, value: string, end: string)
    requires ':' !in key && value != "" && Trimmed(value)
    requires (forall c :: c in blank ==> IsBlank(c)) && forall c :: c in end ==> IsBlank(c)
    ensures HeaderField(key + ":" + blank + value + end)
         == Some((key, if EqualIgnoringCase(key, "Location") then value else DecodeUrl(value, false)))
  {
    hide DecodeUrl, TrimLeft, TrimRight;
    var s := key + ":" + blank + value;
    assert s[|s| - 1] == value[|value| - 1];
    BlanksRight(s, end);
    forall k | 0 <= k < |key| ensures s[k] != ':' { assert s[k] == key[k] && key[k] in key; }
    IndexOfIs(s, ':', |key|);
    assert s[..|key|] == key && s[|key| + 1..] == blank + value;
    BlanksLeft(blank, value);
  }

  lemma {:induction false} BlanksRight(s: string, end: string)
    requires s != "" && !IsBlank(s[|s| - 1]) && forall c :: c in end ==> IsBlank(c)
    ensures TrimRight(s + end) == s
    decreases |end|
  {
    if end == "" {
      assert s + end == s;
    } else {
      var front := end[..|end| - 1];
      assert (s + end)[..|s + end| - 1] == s + front && (s + end)[|s + end| - 1] == end[|end| - 1];
      BlanksRight(s, front);
    }
  }

  lemma {:induction false} BlanksLeft(blank: string, s: string)
    requires s != "" && !IsBlank(s[0]) && forall c :: c in blank ==> IsBlank(c)
    ensures TrimLeft(blank + s) == s
    decreases |blank|
  {
    if blank == "" {
      assert blank + s == s;
    } else {
      assert (blank + s)[1..] == blank[1..] + s && (blank + s)[0] == blank[0];
      BlanksLeft(blank[1..], s);
    }
  }
}
