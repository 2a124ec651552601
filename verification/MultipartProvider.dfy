/** The content provider that streams a multipart body whose last parts come from further providers. */
module MultipartProvider {
  import opened Text
  import opened Wrappers
  import opened MultipartSpec
  import opened MultipartSlices
  import opened MultipartRoundTrip
  import opened Streams
  import opened Chunked
  import opened ChunkedWriter
  import opened ChunkedRoundTrip

  /** What an item's provider does when it is called: its writes, whether it then says it is done, and what it
      returns. */
  datatype ProviderCall = ProviderCall(writes: seq<string>, done: bool, ok: bool)

  /** An item and its provider, given by the calls it will answer. */
  datatype ProviderItem = ProviderItem(info: Info, script: seq<ProviderCall>)

  /** The content written in the first `n` calls. */
  function Written(script: seq<ProviderCall>, n: nat): string
    requires n <= |script|
  {
    if n == 0 then "" else Written(script, n - 1) + Concat(script[n - 1].writes)
  }

  /** The writes of a call after which the writer goes on. */
  predicate StaysOpen(writes: seq<string>)
  {
    writes == [] || writes[|writes| - 1] != ""
  }

  /** A provider whose last call says that it is done, or fails; no other call does either, or ends with an empty
      write. */
  ghost predicate Cooperative(item: ProviderItem)
  {
    && item.script != []
    && (forall i :: 0 <= i < |item.script| ==> Writable(item.script[i].writes))
    && (forall i :: 0 <= i < |item.script| - 1 ==>
          item.script[i].ok && !item.script[i].done && StaysOpen(item.script[i].writes))
    && var last := item.script[|item.script| - 1]; last.ok ==> last.done
  }

  predicate Succeeds(item: ProviderItem)
  {
    item.script != [] && item.script[|item.script| - 1].ok
  }

  function PartOf(item: ProviderItem): Part
  {
    Part(item.info, Written(item.script, |item.script|))
  }

  function PartsOf(items: seq<ProviderItem>): seq<Part>
  {
    if items == [] then [] else PartsOf(items[..|items| - 1]) + [PartOf(items[|items| - 1])]
  }

  lemma PartsOfSnoc(items: seq<ProviderItem>, i: nat)
    requires i < |items|
    ensures PartsOf(items[..i + 1]) == PartsOf(items[..i]) + [PartOf(items[i])]
  {
    assert items[..i + 1][..i] == items[..i];
  }

  lemma {:induction false} ConcatPuts(a: seq<string>, b: seq<string>)
    ensures Concat(a + b) == Concat(a) + Concat(b) && Puts(a + b) == Puts(a) + Puts(b)
    decreases |a|
  {
    if a == [] {
      assert a + b == b;
    } else {
      assert (a + b)[1..] == a[1..] + b;
      ConcatPuts(a[1..], b);
    }
  }

  /** Every offset given to a provider is the number of bytes it had already written. */
  ghost predicate OffsetsRight(providers: seq<ProviderItem>, given: seq<(nat, nat, nat)>)
  {
    forall g :: g in given ==>
      && g.0 < |providers| && g.1 <= |providers[g.0].script|
      && g.2 == |Written(providers[g.0].script, g.1)|
  }

  lemma OffsetsSnoc(providers: seq<ProviderItem>, given: seq<(nat, nat, nat)>, i: nat, n: nat)
    requires OffsetsRight(providers, given) && i < |providers| && n <= |providers[i].script|
    ensures OffsetsRight(providers, given + [(i, n, |Written(providers[i].script, n)|)])
  {
  }

  /** The closure of get_multipart_content_provider with the two variables it keeps between calls. */
  class ContentProvider {
    const boundary: string
    const items: seq<Part>
    const providers: seq<ProviderItem>
    var curItem: nat
    var curStart: nat
    /** How often the current item's provider has been called. */
    var made: nat
    /** For every call of a provider: the item, the number of earlier calls, the offset it was given. */
    var given: seq<(nat, nat, nat)>

    constructor (boundary: string, items: seq<Part>, providers: seq<ProviderItem>)
      ensures this.boundary == boundary && this.items == items && this.providers == providers
      ensures curItem == 0 && curStart == 0 && made == 0 && given == []
    {
      this.boundary, this.items, this.providers := boundary, items, providers;
      curItem, curStart, made, given := 0, 0, 0, [];
    }

    ghost predicate Cooperating()
    {
      && (forall i :: 0 <= i < |providers| ==> Cooperative(providers[i]))
      && |FormData(items + PartsOf(providers), boundary)| < ULONG_MAX
    }

    /** The body up to the current item. */
    ghost function Before(): string
      requires curItem <= |providers|
      reads this
    {
      Items(items, boundary) + Items(PartsOf(providers[..curItem]), boundary)
    }

    /** The body up to the current item's content. */
    ghost function BeforeContent(): string
      requires curItem < |providers|
      reads this
    {
      Before() + ItemBegin(providers[curItem].info, boundary)
    }

    /** Where the closure stands when `sent` has been written through the sink. */
    ghost predicate At(sent: string)
      reads this
    {
      && curItem <= |providers|
      && (curStart == 0 ==> made == 0 && (sent == Before() || (sent == "" && items != [] && curItem == 0)))
      && (curStart > 0 ==>
            && curItem < |providers| && made < |providers[curItem].script|
            && curStart == |BeforeContent()|
            && sent == BeforeContent() + Written(providers[curItem].script, made))
      && OffsetsRight(providers, given)
      && forall i :: 0 <= i < curItem ==> Succeeds(providers[i])
    }

    /** Where it stands when the current item's provider has failed, after everything up to its last write. */
    ghost predicate FailedAt(sent: string)
      reads this
    {
      && curItem < |providers| && !Succeeds(providers[curItem])
      && sent == BeforeContent() + Written(providers[curItem].script, |providers[curItem].script|)
      && OffsetsRight(providers, given)
      && forall i :: 0 <= i < curItem ==> Succeeds(providers[i])
    }

    ghost function CallsLeft(): int
      reads this
    {
      if curItem < |providers| then |providers[curItem].script| - made else 0
    }

    /** The header lines of the current item, if they are still to be written. */
    method BeginItem(offset: nat, ghost sent: string) returns (wrote: seq<string>, off: nat)
      requires Cooperating() && At(sent) && offset == |sent| && curItem < |providers|
      requires sent == "" ==> items == []
      modifies this`curStart
      ensures curStart > 0 && At(sent + Concat(wrote)) && off == |sent + Concat(wrote)|
      ensures StaysOpen(wrote)
    {
      hide ItemBegin;
      if curStart == 0 {
        var begin := ItemBegin(providers[curItem].info, boundary);
        BeginNotEmpty(providers[curItem].info, boundary);
        off := offset + |begin|;
        curStart := off;
        wrote := [begin];
        assert Concat(wrote) == begin + Concat([]);
        assert sent + begin == BeforeContent() + Written(providers[curItem].script, 0);
      } else {
        wrote, off := [], offset;
        assert sent + Concat(wrote) == sent;
      }
    }

    /** The call of the current item's provider. */
    method CallProvider(off: nat, ghost sent: string) returns (wrote: seq<string>, ok: bool)
      requires Cooperating() && At(sent) && off == |sent| && curStart > 0
      modifies this
      ensures !ok ==> FailedAt(sent + Concat(wrote))
      ensures ok ==> At(sent + Concat(wrote)) && StaysOpen(wrote)
      ensures ok ==> curItem > old(curItem) || (curItem == old(curItem) && made > old(made))
    {
      hide ItemBegin, OffsetsRight, Items;
      var call := providers[curItem].script[made];
      wrote := MakeCall(off, sent);
      if !call.ok { return wrote, false; }
      if call.done { wrote := EndItem(sent, wrote); }
      return wrote, true;
    }

    /** The call itself, given the number of bytes the provider has written. */
    method MakeCall(off: nat, ghost sent: string) returns (wrote: seq<string>)
      requires Cooperating() && At(sent) && off == |sent| && curStart > 0
      modifies this`made, this`given
      ensures made == old(made) + 1 && wrote == providers[curItem].script[old(made)].writes
      ensures sent + Concat(wrote) == BeforeContent() + Written(providers[curItem].script, made)
      ensures OffsetsRight(providers, given)
    {
      hide ItemBegin, OffsetsRight, Items;
      var item := providers[curItem];
      OffsetsSnoc(providers, given, curItem, made);
      given := given + [(curItem, made, off - curStart)];
      wrote := item.script[made].writes;
      AppendAssociates(BeforeContent(), Written(item.script, made), Concat(wrote));
      made := made + 1;
    }

    /** After the call that says it is done. */
    method EndItem(ghost sent: string, content: seq<string>) returns (wrote: seq<string>)
      requires curItem < |providers| && made == |providers[curItem].script| && Succeeds(providers[curItem])
      requires sent + Concat(content) == BeforeContent() + Written(providers[curItem].script, made)
      requires OffsetsRight(providers, given) && forall i :: 0 <= i < curItem ==> Succeeds(providers[i])
      modifies this`curItem, this`curStart, this`made
      ensures At(sent + Concat(wrote)) && StaysOpen(wrote) && curItem == old(curItem) + 1
    {
      hide ItemBegin, OffsetsRight, Items, Written;
      EndWritten(sent, content);
      NextItem(sent + Concat(content));
      wrote := content + [CRLF];
    }

    lemma EndWritten(sent: string, wrote: seq<string>)
      ensures sent + Concat(wrote + [CRLF]) == sent + Concat(wrote) + CRLF
    {
      ConcatPuts(wrote, [CRLF]);
      assert Concat([CRLF]) == CRLF + Concat([]);
    }

    /** The item's content is complete; its end goes to the sink and the next item is due. */
    method NextItem(ghost sent: string)
      requires curItem < |providers| && made == |providers[curItem].script|
      requires sent == BeforeContent() + Written(providers[curItem].script, made)
      requires OffsetsRight(providers, given) && Succeeds(providers[curItem])
      requires forall i :: 0 <= i < curItem ==> Succeeds(providers[i])
      modifies this`curItem, this`curStart, this`made
      ensures At(sent + CRLF) && curItem == old(curItem) + 1
    {
      hide ItemBegin, OffsetsRight, Items, Written;
      PartComplete(curItem);
      curItem, curStart, made := curItem + 1, 0, 0;
    }

    /** The part of a call that serves the current provider item. */
    method ProvidePart(offset: nat, ghost sent: string) returns (wrote: seq<string>, ok: bool)
      requires Cooperating() && At(sent) && offset == |sent| && curItem < |providers|
      requires sent == "" ==> items == []
      modifies this
      ensures !ok ==> FailedAt(sent + Concat(wrote))
      ensures ok ==> At(sent + Concat(wrote)) && StaysOpen(wrote)
      ensures ok ==> curItem > old(curItem) || (curItem == old(curItem) && made > old(made))
    {
      hide ItemBegin, Written, Items, OffsetsRight;
      var begin, off := BeginItem(offset, sent);
      var content;
      content, ok := CallProvider(off, sent + Concat(begin));
      ConcatPuts(begin, content);
      AppendAssociates(sent, Concat(begin), Concat(content));
      wrote := begin + content;
    }

    lemma BeginNotEmpty(info: Info, boundary: string)
      ensures ItemBegin(info, boundary) != ""
    {
    }

    lemma PartComplete(i: nat)
      requires i < |providers|
      ensures Items(items, boundary) + Items(PartsOf(providers[..i + 1]), boundary)
           == Items(items, boundary) + Items(PartsOf(providers[..i]), boundary) +
              ItemBegin(providers[i].info, boundary) + Written(providers[i].script, |providers[i].script|) + CRLF
    {
      hide ItemBegin, Items, Written, PartsOf;
      PartsOfSnoc(providers, i);
      var part := PartOf(providers[i]);
      ItemsAppend(PartsOf(providers[..i]), [part], boundary);
      SingleItem(part, boundary);
    }

    /** One call: `wrote` is what goes to the sink, `finished` whether the sink's `done` is then called, and `ok` what
        the call returns. */
    method Provide(offset: nat, ghost sent: string) returns (wrote: seq<string>, finished: bool, ok: bool)
      requires Cooperating() && At(sent) && offset == |sent|
      modifies this
      ensures OffsetsRight(providers, given)
      ensures !ok ==> !finished && FailedAt(sent + Concat(wrote))
      ensures ok && !finished ==> At(sent + Concat(wrote)) && StaysOpen(wrote)
      ensures finished ==>
                && sent + Concat(wrote) == FormData(items + PartsOf(providers), boundary)
                && forall i :: 0 <= i < |providers| ==> Succeeds(providers[i])
      ensures ok && !finished ==>
                || (sent == "" && Concat(wrote) != "" && curItem == old(curItem) && made == old(made))
                || curItem > old(curItem)
                || (curItem == old(curItem) && made > old(made))
    {
      hide ItemBegin, Item;
      if offset == 0 && |items| > 0 {
        var body := SerializeFormData(items, boundary, false);
        assert providers[..0] == [];
        assert Concat([body]) == body + Concat([]);
        BeginNotEmpty(items[0].info, boundary);
        FirstItemNotEmpty();
        return [body], false, true;
      } else if curItem < |providers| {
        wrote, ok := ProvidePart(offset, sent);
        return wrote, false, ok;
      } else {
        assert providers[..curItem] == providers;
        ItemsAppend(items, PartsOf(providers), boundary);
        assert Concat([Finish(boundary)]) == Finish(boundary) + Concat([]);
        return [Finish(boundary)], true, true;
      }
    }

    lemma FirstItemNotEmpty()
      requires items != []
      ensures Items(items, boundary) != ""
    {
    }
  }

  lemma {:induction false} PutsFacts(pieces: seq<string>)
    ensures |Puts(pieces)| == |pieces|
    ensures forall i :: 0 <= i < |pieces| ==> Puts(pieces)[i] == Put(pieces[i])
    decreases |pieces|
  {
    if pieces != [] { PutsFacts(pieces[1..]); }
  }

  lemma {:induction false} PutBytesOfPuts(pieces: seq<string>)
    ensures PutBytes(Puts(pieces)) == |Concat(pieces)|
    decreases |pieces|
  {
    if pieces != [] {
      var n := |pieces| - 1;
      assert pieces == pieces[..n] + [pieces[n]];
      ConcatPuts(pieces[..n], [pieces[n]]);
      assert Puts([pieces[n]]) == [Put(pieces[n])] && Concat([pieces[n]]) == pieces[n] + Concat([]);
      assert Puts(pieces)[..|Puts(pieces)| - 1] == Puts(pieces[..n]);
      PutBytesOfPuts(pieces[..n]);
    }
  }

  lemma AvailableAfterPuts(pieces: seq<string>)
    requires StaysOpen(pieces)
    ensures Available(Puts(pieces), true)
  {
    PutsFacts(pieces);
  }

  /** How far a body has come: part of it has gone out in pieces, or all of it. */
  ghost predicate Progress(provider: ContentProvider, pieces: seq<string>, finished: bool)
    reads provider
  {
    if finished then
      && Concat(pieces) == FormData(provider.items + PartsOf(provider.providers), provider.boundary)
      && forall i :: 0 <= i < |provider.providers| ==> Succeeds(provider.providers[i])
    else
      provider.At(Concat(pieces))
  }

  /** One call of the closure and what it does to the sink. */
  method SendOnce(sink: ChunkedSink, provider: ContentProvider, ghost start: string, ghost pieces: seq<string>)
    returns (finished: bool, ok: bool, ghost wrote: seq<string>)
    requires sink.strm.written == start + EmitAll(Puts(pieces))
    requires provider.Cooperating() && provider.At(Concat(pieces)) && sink.offset == |Concat(pieces)|
    requires sink.strm as object != provider && sink as object != provider && sink.ok && sink.dataAvailable
    modifies sink, sink.strm, provider
    ensures OffsetsRight(provider.providers, provider.given)
    ensures if ok then Progress(provider, pieces + wrote, finished)
            else !finished && provider.FailedAt(Concat(pieces + wrote))
    ensures ok && !finished ==>
              || (Concat(pieces) == "" && Concat(pieces + wrote) != ""
                  && provider.curItem == old(provider.curItem) && provider.made == old(provider.made))
              || provider.curItem > old(provider.curItem)
              || (provider.curItem == old(provider.curItem) && provider.made > old(provider.made))
    ensures old(sink.strm.failed) ==> sink.strm.failed
    ensures !sink.ok ==> sink.strm.failed
    ensures sink.ok ==>
              && (ok ==> sink.dataAvailable == !finished && sink.offset == |Concat(pieces + wrote)|)
              && sink.strm.written == start + EmitAll(Puts(pieces + wrote)) + if finished then Terminator([]) else ""
  {
    hide Emit, EmitAll, Available, PutBytes, Puts, Concat, FormData, OffsetsRight, Terminator, Written, Items;
    var w;
    w, finished, ok := provider.Provide(sink.offset, Concat(pieces));
    wrote := w;
    PutBytesOfPuts(w);
    if ok && !finished { AvailableAfterPuts(w); }
    ConcatPuts(pieces, w);
    EmitAllAppend(Puts(pieces), Puts(w));
    AppendAssociates(start, EmitAll(Puts(pieces)), EmitAll(Puts(w)));
    sink.DoAll(Puts(w));
    if finished {
      sink.DoneWithTrailer([]);
      EmitDone([]);
    }
  }

  /** write_content_chunked driving the closure: the body goes out in pieces, then the terminator; or it ends, without
      one, where a provider fails. */
  method SendMultipart(strm: OutStream, provider: ContentProvider) returns (error: WriteError, ghost pieces: seq<string>)
    requires provider.Cooperating() && provider.At("") && strm as object != provider
    modifies strm, provider
    ensures OffsetsRight(provider.providers, provider.given)
    ensures old(strm.failed) ==> strm.failed
    ensures error == WriteFailed ==> strm.failed
    ensures error == Success ==>
              && (forall i :: 0 <= i < |provider.providers| ==> Succeeds(provider.providers[i]))
              && Concat(pieces) == FormData(provider.items + PartsOf(provider.providers), provider.boundary)
              && Writable(pieces)
              && strm.written == old(strm.written) + EmitAll(Puts(pieces)) + Terminator([])
    ensures error == Canceled ==> provider.FailedAt(Concat(pieces))
    ensures error == Canceled && !strm.failed ==> strm.written == old(strm.written) + EmitAll(Puts(pieces))
  {
    hide Emit, EmitAll, Available, PutBytes, Puts, Concat, FormData, OffsetsRight, Terminator, Written, Items;
    hide Writable, PartsOf, Cooperative, Succeeds;
    var sink := new ChunkedSink(strm);
    pieces := [];
    NothingYet();
    ghost var start := strm.written;
    assert start + "" + "" == start;
    var finished := false;
    while !finished
      invariant fresh(sink) && sink.strm == strm && sink.ok && sink.dataAvailable == !finished
      invariant OffsetsRight(provider.providers, provider.given)
      invariant old(strm.failed) ==> strm.failed
      invariant Progress(provider, pieces, finished)
      invariant !finished ==> provider.Cooperating() && sink.offset == |Concat(pieces)|
      invariant strm.written == start + EmitAll(Puts(pieces)) + if finished then Terminator([]) else ""
      decreases !finished, |provider.providers| - provider.curItem, provider.CallsLeft(),
                if Concat(pieces) == "" then 1 else 0
    {
      var writable := strm.IsWritable();
      if !writable { return WriteFailed, pieces; }
      var ok;
      ghost var wrote;
      finished, ok, wrote := SendOnce(sink, provider, start, pieces);
      pieces := pieces + wrote;
      if !ok { return Canceled, pieces; }
      if !sink.ok { return WriteFailed, pieces; }
    }
    AllWritable(pieces);
    return Success, pieces;
  }

  lemma {:induction false} AllWritable(pieces: seq<string>)
    requires |Concat(pieces)| < ULONG_MAX
    ensures Writable(pieces)
    decreases |pieces|
  {
    if pieces != [] {
      assert pieces == [pieces[0]] + pieces[1..];
      AllWritable(pieces[1..]);
    }
  }

  lemma NothingYet()
    ensures Concat([]) == "" && EmitAll(Puts([])) == ""
  {
  }

  /** The whole way of a streamed body: out in chunks, back through any chunked reader, into the parser in any
      slices that keep the first boundary line whole. */
  lemma StreamedBodyIsReadBack(boundary: string, items: seq<Part>, providers: seq<ProviderItem>,
                               pieces: seq<string>, tail: string, capacity: nat, slices: seq<string>,
                               accept: Receiver)
    requires Concat(pieces) == FormData(items + PartsOf(providers), boundary) && Writable(pieces)
    requires |Concat(pieces)| <= capacity
    requires CR !in boundary && items + PartsOf(providers) != [] && AcceptsAll(accept)
    requires PrintableItems(items + PartsOf(providers), boundary)
    requires Concat(slices) == Concat(pieces)
    requires slices != [] && |slices[0]| >= |DashBoundaryCrlf(boundary)|
    ensures DecodeChunks(EmitAll(Puts(pieces)) + Terminator([]) + tail, "", capacity)
         == Some(Decoded(Concat(slices), [], tail))
    ensures var p := ParseSlices(boundary, INITIAL, slices, accept);
            p.outcome == More && Finished(p.s) && Replay(p.s.trace) == items + PartsOf(providers)
  {
    hide DecodeChunks, Terminator, EmitAll, ParseSlices, FormData, PrintableItems;
    var end := Terminator([]) + tail;
    AppendAssociates(EmitAll(Puts(pieces)), Terminator([]), tail);
    PutsRead(pieces, end, "", capacity);
    assert "" + Concat(pieces) == Concat(pieces);
    TerminatorRead([], tail, Concat(pieces), capacity);
    RoundTrip(boundary, items + PartsOf(providers), slices, accept);
  }
}
