/** The writer of chunked content, and the round trip through the reader. */
module ChunkedWriter {
  import opened Text
  import opened Wrappers
  import opened UrlCodec
  import opened Streams
  import opened Chunked

  function HexDigit(n: nat): char
    requires n < 16
  {
    "0123456789abcdef"[n]
  }

  function Hex(n: nat): string
  {
    (if n < 16 then "" else Hex(n / 16)) + [HexDigit(n % 16)]
  }

  lemma HexStep(k: nat, ret: string)
    ensures k < 16 ==> Hex(k) + ret == [HexDigit(k % 16)] + ret
    ensures k >= 16 ==> Hex(k) + ret == Hex(k / 16) + ([HexDigit(k % 16)] + ret)
  {
    hide HexDigit;
  }

  /** from_i_to_hex */
  method FromIToHex(n: nat) returns (ret: string)
    ensures ret == Hex(n)
  {
    hide Hex, HexDigit;
    var k := n;
    HexStep(k, "");
    assert Hex(n) + "" == Hex(n);
    ret := [HexDigit(k % 16)];
    assert ret + "" == ret;
    k := k / 16;
    while k > 0
      invariant Hex(n) == (if k == 0 then "" else Hex(k)) + ret
    {
      HexStep(k, ret);
      ret := [HexDigit(k % 16)] + ret;
      k := k / 16;
    }
  }

  function Chunk(data: string): string
  {
    Hex(|data|) + CRLF + data + CRLF
  }

  function TrailerLine(kv: (string, string)): string
  {
    kv.0 + ": " + kv.1 + CRLF
  }

  function TrailerLines(trailers: Fields): string
  {
    if trailers == [] then "" else TrailerLine(trailers[0]) + TrailerLines(trailers[1..])
  }

  function Terminator(trailers: Fields): string
  {
    "0" + CRLF + TrailerLines(trailers) + CRLF
  }

  lemma TerminatorParts(before: string, trailers: Fields)
    ensures before + ("0" + CRLF) + TrailerLines(trailers) + CRLF == before + Terminator(trailers)
  {
    hide TrailerLines;
  }

  /** What a content provider does with its sink. */
  datatype Action = Put(data: string) | Done(trailers: Fields)

  /** One call of the provider: what it did and what it returned. */
  datatype Call = Call(actions: seq<Action>, ok: bool)

  function Emit(a: Action): string
  {
    match a
    case Put(data) => if data == "" then "" else Chunk(data)
    case Done(trailers) => Terminator(trailers)
  }

  function EmitAll(actions: seq<Action>): string
  {
    if actions == [] then "" else Emit(actions[0]) + EmitAll(actions[1..])
  }

  lemma {:induction false} EmitAllAppend(a: seq<Action>, b: seq<Action>)
    ensures EmitAll(a + b) == EmitAll(a) + EmitAll(b)
    decreases |a|
  {
    if a == [] {
      assert a + b == b;
    } else {
      assert (a + b)[1..] == a[1..] + b;
      EmitAllAppend(a[1..], b);
    }
  }

  /** How far the actions move the sink's offset. */
  function PutBytes(actions: seq<Action>): nat
  {
    if actions == [] then 0
    else
      PutBytes(actions[..|actions| - 1]) +
      match actions[|actions| - 1] case Put(data) => |data| case Done(_) => 0
  }

  function Available(actions: seq<Action>, before: bool): bool
  {
    if actions == [] then before
    else
      match actions[|actions| - 1]
      case Put(data) => data != ""
      case Done(_) => false
  }

  /** The actions performed before the writer's loop ends. */
  function Performed(calls: seq<Call>, available: bool): seq<Action>
    decreases |calls|
  {
    if !available || calls == [] then []
    else if !calls[0].ok then calls[0].actions
    else calls[0].actions + Performed(calls[1..], Available(calls[0].actions, available))
  }

  /** The connection to the peer; each send takes some of the bytes or fails. */
  class OutStream {
    var written: string
    var failed: bool

    constructor ()
      ensures written == "" && !failed
    {
      written, failed := "", false;
    }

    method Send(d: string) returns (n: int)
      requires d != ""
      modifies this
      ensures n < 0 ==> failed && written == old(written)
      ensures n >= 0 ==> 0 < n <= |d| && written == old(written) + d[..n] && failed == old(failed)
    {
      if * {
        failed := true;
        return -1;
      }
      var k: nat :| 0 < k <= |d|;
      written := written + d[..k];
      return k;
    }

    method IsWritable() returns (b: bool)
      modifies this`failed
      ensures b ==> failed == old(failed)
      ensures !b ==> failed
    {
      b := *;
      if !b { failed := true; }
    }
  }

  /** write_data */
  method WriteData(strm: OutStream, d: string) returns (ok: bool)
    modifies strm
    ensures old(strm.failed) ==> strm.failed
    ensures ok ==> strm.written == old(strm.written) + d && strm.failed == old(strm.failed)
    ensures !ok ==> strm.failed
  {
    var offset := 0;
    while offset < |d|
      invariant 0 <= offset <= |d|
      invariant strm.written == old(strm.written) + d[..offset]
      invariant strm.failed == old(strm.failed)
    {
      var length := strm.Send(d[offset..]);
      if length < 0 { return false; }
      assert d[..offset] + d[offset..][..length] == d[..offset + length];
      offset := offset + length;
    }
    return true;
  }

  /** The sink of write_content_chunked with the variables its closures share; content is not compressed. */
  class ChunkedSink {
    const strm: OutStream
    var offset: nat
    var dataAvailable: bool
    var ok: bool

    constructor (strm: OutStream)
      ensures this.strm == strm && offset == 0 && dataAvailable && ok
    {
      this.strm := strm;
      offset, dataAvailable, ok := 0, true, true;
    }

    method Write(d: string) returns (r: bool)
      modifies this, strm
      ensures old(strm.failed) ==> strm.failed
      ensures r == ok && (!ok ==> !old(ok) || strm.failed)
      ensures !old(ok) ==> unchanged(this) && unchanged(strm)
      ensures old(ok) ==> dataAvailable == (d != "") && offset == old(offset) + |d|
      ensures ok ==> old(ok) && strm.written == old(strm.written) + Emit(Put(d))
    {
      hide Hex;
      if ok {
        dataAvailable := |d| > 0;
        offset := offset + |d|;
        if d != "" {
          var hex := FromIToHex(|d|);
          var chunk := hex + CRLF + d + CRLF;
          var writable := strm.IsWritable();
          if !writable {
            ok := false;
          } else {
            ok := WriteData(strm, chunk);
          }
        }
      }
      return ok;
    }

    method DoneWithTrailer(trailers: Fields)
      modifies this, strm
      ensures old(strm.failed) ==> strm.failed
      ensures !ok ==> !old(ok) || strm.failed
      ensures !old(ok) ==> unchanged(this) && unchanged(strm)
      ensures old(ok) ==> !dataAvailable && offset == old(offset)
      ensures ok ==> old(ok) && strm.written == old(strm.written) + Emit(Done(trailers))
    {
      hide TrailerLine;
      if !ok { return; }
      dataAvailable := false;
      ghost var head := strm.written + ("0" + CRLF);
      var sent := WriteData(strm, "0" + CRLF);
      if !sent { ok := false; }
      var i := 0;
      assert trailers[0..] == trailers;
      while i < |trailers|
        invariant 0 <= i <= |trailers|
        invariant old(strm.failed) ==> strm.failed
        invariant !ok ==> strm.failed
        invariant !dataAvailable && offset == old(offset)
        invariant ok ==> strm.written + TrailerLines(trailers[i..]) == head + TrailerLines(trailers)
      {
        assert trailers[i..][1..] == trailers[i + 1..];
        AppendAssociates(strm.written, TrailerLine(trailers[i]), TrailerLines(trailers[i + 1..]));
        var line := TrailerLine(trailers[i]);
        sent := WriteData(strm, line);
        if !sent { ok := false; }
        i := i + 1;
      }
      assert ok ==> strm.written + "" == head + TrailerLines(trailers);
      sent := WriteData(strm, CRLF);
      if !sent { ok := false; }
      TerminatorParts(old(strm.written), trailers);
    }

    method Do(a: Action)
      modifies this, strm
      ensures old(strm.failed) ==> strm.failed
      ensures !ok ==> !old(ok) || strm.failed
      ensures !old(ok) ==> unchanged(this) && unchanged(strm)
      ensures old(ok) ==> dataAvailable == Available([a], old(dataAvailable))
      ensures old(ok) ==> offset == old(offset) + match a case Put(data) => |data| case Done(_) => 0
      ensures ok ==> old(ok) && strm.written == old(strm.written) + Emit(a)
    {
      match a {
        case Put(d) => var r := Write(d);
        case Done(trailers) => DoneWithTrailer(trailers);
      }
    }

    /** The provider's use of the sink in one call. */
    method DoAll(actions: seq<Action>)
      modifies this, strm
      ensures old(strm.failed) ==> strm.failed
      ensures !ok ==> !old(ok) || strm.failed
      ensures ok ==>
                && strm.written == old(strm.written) + EmitAll(actions)
                && dataAvailable == Available(actions, old(dataAvailable))
                && offset == old(offset) + PutBytes(actions)
    {
      hide Emit;
      var j := 0;
      assert actions[..0] == [];
      while j < |actions|
        invariant 0 <= j <= |actions|
        invariant old(strm.failed) ==> strm.failed
        invariant !ok ==> !old(ok) || strm.failed
        invariant ok ==> strm.written == old(strm.written) + EmitAll(actions[..j])
        invariant ok ==> dataAvailable == Available(actions[..j], old(dataAvailable))
        invariant ok ==> offset == old(offset) + PutBytes(actions[..j])
      {
        assert actions[..j + 1][..j] == actions[..j];
        EmitAllSnoc(actions, j);
        Do(actions[j]);
        j := j + 1;
      }
      assert actions[..j] == actions;
    }
  }

  lemma EmitAllSnoc(actions: seq<Action>, j: nat)
    requires j < |actions|
    ensures EmitAll(actions[..j + 1]) == EmitAll(actions[..j]) + Emit(actions[j])
  {
    hide Emit;
    EmitAllAppend(actions[..j], [actions[j]]);
    assert actions[..j + 1] == actions[..j] + [actions[j]];
    assert EmitAll([actions[j]]) == Emit(actions[j]) + EmitAll([]);
  }

  datatype WriteError = Success | WriteFailed | Canceled

  lemma PerformedStep(calls: seq<Call>, i: nat, available: bool)
    requires i < |calls| && available
    ensures EmitAll(Performed(calls[i..], available))
         == EmitAll(calls[i].actions) +
            if calls[i].ok then EmitAll(Performed(calls[i + 1..], Available(calls[i].actions, available))) else ""
  {
    hide Emit;
    assert calls[i..][1..] == calls[i + 1..];
    if calls[i].ok {
      EmitAllAppend(calls[i].actions, Performed(calls[i + 1..], Available(calls[i].actions, available)));
    }
  }

  /** write_content_chunked, with a provider that makes the given calls and a server that then shuts down. */
  method WriteContentChunked(strm: OutStream, calls: seq<Call>) returns (error: WriteError)
    modifies strm
    ensures old(strm.failed) ==> strm.failed
    ensures error == WriteFailed ==> strm.failed
    ensures error == Success || !strm.failed ==>
              strm.written == old(strm.written) + EmitAll(Performed(calls, true))
  {
    hide Emit, EmitAll, Performed, Available;
    var sink := new ChunkedSink(strm);
    ghost var start := strm.written;
    var i := 0;
    assert calls[0..] == calls;
    while sink.dataAvailable && i < |calls|
      invariant fresh(sink) && sink.strm == strm && 0 <= i <= |calls| && sink.ok
      invariant old(strm.failed) ==> strm.failed
      invariant start + EmitAll(Performed(calls, true))
             == strm.written + EmitAll(Performed(calls[i..], sink.dataAvailable))
    {
      var writable := strm.IsWritable();
      if !writable { return WriteFailed; }
      PerformedStep(calls, i, sink.dataAvailable);
      ghost var before := strm.written;
      sink.DoAll(calls[i].actions);
      if !calls[i].ok { return Canceled; }
      if !sink.ok { return WriteFailed; }
      AppendAssociates(before, EmitAll(calls[i].actions), EmitAll(Performed(calls[i + 1..], sink.dataAvailable)));
      i := i + 1;
    }
    NothingPerformed(calls[i..], sink.dataAvailable);
    return Success;
  }

  lemma NothingPerformed(calls: seq<Call>, available: bool)
    ensures !available || calls == [] ==> EmitAll(Performed(calls, available)) == ""
  {
  }
}
