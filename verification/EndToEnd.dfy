/** The objects together: one streamed multipart body from the provider to the parser, over any connection. */
module EndToEnd {
  import opened Text
  import opened Wrappers
  import opened MultipartSpec
  import opened MultipartSlices
  import opened MultipartRoundTrip
  import opened MultipartParser
  import opened MultipartProvider
  import opened Streams
  import opened Chunked
  import opened ChunkedWriter
  import opened ChunkedRoundTrip

  /** Cutting a body into slices, the first of which holds the first boundary line. */
  ghost predicate Cuts(cut: string -> seq<string>, boundary: string)
  {
    forall body: string :: StartsWith(body, DashBoundaryCrlf(boundary)) ==>
      && Concat(cut(body)) == body && cut(body) != []
      && |cut(body)[0]| >= |DashBoundaryCrlf(boundary)|
  }

  /** The sender's side. */
  method SendBody(boundary: string, items: seq<Part>, providers: seq<ProviderItem>)
    returns (ok: bool, written: string, ghost pieces: seq<string>, broken: bool)
    requires forall i :: 0 <= i < |providers| ==> Cooperative(providers[i])
    requires |FormData(items + PartsOf(providers), boundary)| < ULONG_MAX
    ensures ok || broken || exists i :: 0 <= i < |providers| && !Succeeds(providers[i])
    ensures ok ==>
              && Concat(pieces) == FormData(items + PartsOf(providers), boundary) && Writable(pieces)
              && written == EmitAll(Puts(pieces)) + Terminator([])
  {
    hide EmitAll, Puts, Concat, FormData, Terminator, Cooperative, Written, Succeeds;
    var out := new OutStream();
    var provider := new ContentProvider(boundary, items, providers);
    NothingSent(provider);
    var error;
    error, pieces := SendMultipart(out, provider);
    ok := error == Success;
    assert "" + EmitAll(Puts(pieces)) == EmitAll(Puts(pieces));
    written, broken := out.written, out.failed;
  }

  lemma NothingSent(provider: ContentProvider)
    requires provider.curItem == 0 && provider.curStart == 0 && provider.made == 0 && provider.given == []
    ensures provider.At("")
  {
    hide Item;
    assert provider.items == [] ==> provider.Before() == "";
  }

  /** The receiver's side. */
  method ReceiveBody(written: string, tail: string)
    returns (ok: bool, body: string, strm: SocketStream, broken: bool)
    ensures fresh(strm.Repr) && strm in strm.Repr && strm.Valid()
    ensures var r := DecodeChunks(written + tail, "", ULONG_MAX);
            if ok then r.Some? && r.value.body == body && r.value.rest == strm.Pending() else broken || r.None?
  {
    hide DecodeChunks;
    var sock := new Socket(written + tail);
    strm := new SocketStream(sock);
    var trailers;
    ok, body, trailers := ReadContentChunked(strm, ULONG_MAX);
    broken := sock.failed;
  }

  /** Unless a connection or a provider fails, the receiver of the parsed body ends up with exactly the parts that
      were sent, and the stream stands at the bytes after the message. */
  method Transfer(boundary: string, items: seq<Part>, providers: seq<ProviderItem>, tail: string,
                  cut: string -> seq<string>, accept: Receiver)
    returns (delivered: bool, parser: MultipartFormDataParser, strm: SocketStream, broken: bool)
    requires CR !in boundary && items + PartsOf(providers) != [] && AcceptsAll(accept)
    requires PrintableItems(items + PartsOf(providers), boundary) && Cuts(cut, boundary)
    requires forall i :: 0 <= i < |providers| ==> Cooperative(providers[i])
    requires |FormData(items + PartsOf(providers), boundary)| < ULONG_MAX
    ensures delivered || broken || exists i :: 0 <= i < |providers| && !Succeeds(providers[i])
    ensures delivered ==>
              && parser.Valid() && parser.valid && Replay(parser.trace) == items + PartsOf(providers)
              && strm.Valid() && strm.Pending() == tail
  {
    hide DecodeChunks, EmitAll, Puts, Concat, FormData, Terminator, PrintableItems, Cooperative, Written;
    hide ParseSlices, Cuts, Replay, Succeeds;
    var written, body;
    ghost var pieces;
    parser := new MultipartFormDataParser(boundary);
    delivered, written, pieces, broken := SendBody(boundary, items, providers);
    if delivered {
      BodyArrives(boundary, items, providers, pieces, tail, cut, accept);
      delivered, body, strm, broken := ReceiveBody(written, tail);
      if delivered {
        delivered := parser.ParseAll(cut(body), accept);
        assert strm.Valid() && strm.Pending() == tail;
      }
    } else {
      var none := new Socket("");
      strm := new SocketStream(none);
    }
  }

  lemma BodyArrives(boundary: string, items: seq<Part>, providers: seq<ProviderItem>, pieces: seq<string>,
                    tail: string, cut: string -> seq<string>, accept: Receiver)
    requires Concat(pieces) == FormData(items + PartsOf(providers), boundary) && Writable(pieces)
    requires CR !in boundary && items + PartsOf(providers) != [] && AcceptsAll(accept)
    requires PrintableItems(items + PartsOf(providers), boundary) && Cuts(cut, boundary)
    requires |Concat(pieces)| < ULONG_MAX
    ensures DecodeChunks(EmitAll(Puts(pieces)) + Terminator([]) + tail, "", ULONG_MAX)
         == Some(Decoded(Concat(pieces), [], tail))
    ensures var p := ParseSlices(boundary, INITIAL, cut(Concat(pieces)), accept);
            p.outcome == More && p.s.valid && Replay(p.s.trace) == items + PartsOf(providers)
  {
    hide DecodeChunks, EmitAll, Puts, Concat, FormData, Terminator, PrintableItems, Written, ParseSlices, Replay;
    PrintableIsReadable(items + PartsOf(providers), boundary);
    ParsePrinted(boundary, items + PartsOf(providers), accept);
    assert StartsWith(Concat(pieces), DashBoundaryCrlf(boundary));
    StreamedBodyIsReadBack(boundary, items, providers, pieces, tail, ULONG_MAX, cut(Concat(pieces)), accept);
  }
}
