/** Reading from a socket through a buffer, and reading lines byte by byte from that. */
module Streams {
  import opened Text
  import opened Wrappers

  const READ_BUFF_SIZE := 4096

  /** Negative results of a read are `Failed`; a result of n bytes, zero included, is `Got`. */
  datatype Received = Failed | Got(data: string)

  /** The peer and the network: some bytes are still to come, each receive gives as many of them as it likes, or fails. */
  class Socket {
    var incoming: string
    /** Whether a receive or a wait for data has failed. */
    var failed: bool

    constructor (incoming: string)
      ensures this.incoming == incoming && !failed
    {
      this.incoming, failed := incoming, false;
    }

    method Receive(n: nat) returns (r: Received)
      requires n > 0
      modifies this
      ensures r.Failed? ==> failed && incoming == old(incoming)
      ensures r.Got? ==>
                && failed == old(failed)
                && |r.data| <= n && old(incoming) == r.data + incoming
                && (r.data == "" ==> incoming == "")
    {
      if * {
        failed := true;
        return Failed;
      }
      var k: nat :| k <= n && k <= |incoming| && (k == 0 ==> incoming == "");
      r := Got(incoming[..k]);
      incoming := incoming[k..];
    }

    /** Waiting for data may time out. */
    method Wait() returns (readable: bool)
      modifies this`failed
      ensures readable ==> failed == old(failed)
      ensures !readable ==> failed
    {
      readable := *;
      if !readable { failed := true; }
    }
  }

  class SocketStream {
    const sock: Socket
    const buff: array<char>
    var off: nat
    var contentSize: nat

    ghost const Repr: set<object>

    ghost predicate Valid()
      reads this, Repr
    {
      && Repr == {this, sock, buff}
      && off <= contentSize <= buff.Length == READ_BUFF_SIZE
    }

    /** All bytes that reads can still give: the rest of the buffer, then what the socket has not given. */
    ghost function Pending(): string
      requires Valid()
      reads this, Repr
    {
      buff[off..contentSize] + sock.incoming
    }

    constructor (sock: Socket)
      ensures Valid() && fresh(Repr - {sock}) && this.sock == sock
      ensures Pending() == sock.incoming
    {
      this.sock := sock;
      buff := new char[READ_BUFF_SIZE](_ => '\0');
      off, contentSize := 0, 0;
      Repr := {this, sock, buff};
    }

    /** SocketStream::read: the next bytes in order, at least one of them while there are any. */
    method Read(size: nat) returns (r: Received)
      requires Valid() && size > 0
      modifies Repr
      ensures Valid()
      ensures old(sock.failed) ==> sock.failed
      ensures r.Failed? ==> sock.failed && Pending() == old(Pending())
      ensures r.Got? ==>
                && sock.failed == old(sock.failed)
                && |r.data| <= size && old(Pending()) == r.data + Pending()
                && (r.data == "" ==> Pending() == "")
    {
      if off < contentSize {
        r := TakeBuffered(size);
        return;
      }
      var readable := sock.Wait();
      if !readable { return Failed; }
      assert buff[off..contentSize] == "";
      off, contentSize := 0, 0;
      assert buff[off..contentSize] == "";
      if size < READ_BUFF_SIZE {
        r := sock.Receive(READ_BUFF_SIZE);
        if r.Failed? || r.data == "" { return; }
        r := Store(r.data, size);
        AppendAssociates(r.data, buff[off..contentSize], sock.incoming);
      } else {
        r := sock.Receive(size);
      }
    }

    method TakeBuffered(size: nat) returns (r: Received)
      requires Valid() && size > 0 && off < contentSize
      modifies this`off
      ensures Valid() && r.Got? && 0 < |r.data| <= size && old(Pending()) == r.data + Pending()
    {
      var remaining := contentSize - off;
      var n := if size <= remaining then size else remaining;
      var data := buff[off..off + n];
      ghost var rest := buff[off..contentSize];
      assert rest == data + buff[off + n..contentSize];
      AppendAssociates(data, buff[off + n..contentSize], sock.incoming);
      off := off + n;
      return Got(data);
    }

    /** What was received goes to the caller, as far as it asked for it, and else to the buffer. */
    method Store(data: string, size: nat) returns (r: Received)
      requires Valid() && off == contentSize == 0 && size > 0 && 0 < |data| <= READ_BUFF_SIZE
      modifies this`off, this`contentSize, buff
      ensures Valid() && r.Got? && 0 < |r.data| <= size && data == r.data + buff[off..contentSize]
    {
      var n := |data|;
      forall k | 0 <= k < n {
        buff[k] := data[k];
      }
      if n > size {
        assert buff[size..n] == data[size..];
        r := Got(data[..size]);
        off, contentSize := size, n;
      } else {
        r := Got(data);
      }
    }

    /** A sequence of reads loses and repeats nothing. */
    method ReadAll(sizes: seq<nat>) returns (chunks: seq<string>, ok: bool)
      requires Valid() && forall i :: 0 <= i < |sizes| ==> sizes[i] > 0
      modifies Repr
      ensures Valid()
      ensures old(Pending()) == Concat(chunks) + Pending()
      ensures ok ==> |chunks| == |sizes| && forall i :: 0 <= i < |sizes| ==> |chunks[i]| <= sizes[i]
      ensures !ok ==> sock.failed
    {
      chunks, ok := [], true;
      var i := 0;
      while i < |sizes|
        invariant Valid() && 0 <= i <= |sizes| && |chunks| == i
        invariant old(Pending()) == Concat(chunks) + Pending()
        invariant forall k :: 0 <= k < i ==> |chunks[k]| <= sizes[k]
      {
        ghost var before := Pending();
        var r := Read(sizes[i]);
        if r.Failed? { return chunks, false; }
        ConcatSnoc(chunks, r.data);
        AppendAssociates(Concat(chunks), r.data, Pending());
        chunks := chunks + [r.data];
        i := i + 1;
      }
    }
  }

  lemma AppendAssociates(a: string, b: string, c: string)
    ensures a + (b + c) == (a + b) + c
  {
  }

  /** How many bytes the first line of `s` has: through the first line feed, or all of them. */
  function LineLength(s: string): (n: nat)
    ensures n <= |s| && (s != "" ==> n > 0)
    ensures forall k :: 0 <= k < n - 1 ==> s[k] != LF
    ensures n < |s| ==> s[n - 1] == LF
  {
    if s == "" then 0
    else if s[0] == LF then 1
    else 1 + LineLength(s[1..])
  }

  lemma {:induction false} LineLengthIs(s: string, n: nat)
    requires 0 < n <= |s| && (forall k :: 0 <= k < n - 1 ==> s[k] != LF)
    requires n == |s| || s[n - 1] == LF
    ensures LineLength(s) == n
    decreases n
  {
    if n > 1 {
      assert s[0] != LF;
      LineLengthIs(s[1..], n - 1);
    }
  }

  lemma LineIs(s: string, line: string, rest: string)
    requires s == line + [LF] + rest && LF !in line
    ensures s[..LineLength(s)] == line + [LF] && s[LineLength(s)..] == rest
  {
    LineLengthIs(s, |line| + 1);
  }

  lemma LastLineIs(s: string, line: string)
    requires s == line + "" && line != "" && LF !in line
    ensures s[..LineLength(s)] == line && s[LineLength(s)..] == ""
  {
    LineLengthIs(s, |line|);
  }

  class StreamLineReader {
    const strm: SocketStream
    const fixed: array<char>
    var used: nat
    var glowable: string

    ghost predicate Valid()
      reads this, fixed
    {
      && fixed != strm.buff && fixed !in strm.Repr && this !in strm.Repr
      && used < fixed.Length && 2 <= fixed.Length
      && (glowable != "" ==> used == fixed.Length - 1)
    }

    /** ptr() and size() */
    function Line(): string
      requires Valid()
      reads this, fixed
    {
      if glowable == "" then fixed[..used] else glowable
    }

    constructor (strm: SocketStream, fixed: array<char>)
      requires strm.Valid() && fixed !in strm.Repr && 2 <= fixed.Length
      ensures Valid() && this.strm == strm && this.fixed == fixed
    {
      this.strm, this.fixed := strm, fixed;
      used, glowable := 0, "";
    }

    method Append(c: char)
      requires Valid()
      requires used > 0 ==> fixed[used] == '\0'
      modifies this, fixed
      ensures Valid() && Line() == old(Line()) + [c]
      ensures used > 0 && fixed[used] == '\0'
    {
      ghost var line := Line();
      if used < fixed.Length - 1 {
        fixed[used] := c;
        used := used + 1;
        fixed[used] := '\0';
        assert fixed[..used] == line + [c];
      } else {
        if glowable == "" {
          assert fixed[used] == '\0';
          glowable := fixed[..used];
        }
        glowable := glowable + [c];
      }
    }

    /** getline: exactly the bytes through the next line feed, or through the end of the stream; nothing at the end. */
    method GetLine() returns (ok: bool)
      requires Valid() && strm.Valid()
      modifies this, fixed, strm.Repr
      ensures Valid() && strm.Valid()
      ensures old(strm.sock.failed) ==> strm.sock.failed
      ensures ok ==>
                && var s := old(strm.Pending());
                && s != ""
                && Line() == s[..LineLength(s)]
                && strm.Pending() == s[LineLength(s)..]
      ensures !ok ==> strm.sock.failed || old(strm.Pending()) == ""
    {
      hide LineLength;
      ghost var s := strm.Pending();
      used := 0;
      glowable := "";
      assert Line() == "";
      var i := 0;
      while true
        invariant Valid() && strm.Valid()
        invariant old(strm.sock.failed) ==> strm.sock.failed
        invariant i == |Line()| && s == Line() + strm.Pending()
        invariant LF !in Line()
        invariant used > 0 ==> fixed[used] == '\0'
        decreases |strm.Pending()|
      {
        ghost var line := Line();
        ghost var rest := strm.Pending();
        var r := strm.Read(1);
        assert Line() == line;
        if r.Failed? { return false; }
        if r.data == "" {
          if i == 0 { return false; }
          LastLineIs(s, line);
          return true;
        }
        var byte := r.data[0];
        assert r.data == [byte];
        AppendAssociates(line, [byte], strm.Pending());
        Append(byte);
        if byte == LF {
          LineIs(s, line, strm.Pending());
          return true;
        }
        i := i + 1;
      }
    }
  }
}
