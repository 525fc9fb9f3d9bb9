/** Buffered reading of a descriptor whose reads may be short, interrupted or fail. */
module Rio {
  import opened Arithmetic
  import opened Words

  const BUF_SIZE: nat := 8192
  const NEWLINE: Byte := 10

  type Chunk = s: seq<Byte> | |s| > 0 witness [0]

  /** What one call of read can do: deliver some bytes, report the end of the file, be interrupted by a
      signal, or fail. */
  datatype Outcome = Data(bytes: Chunk) | EndOfFile | Interrupted | Failed

  datatype Stop = AtEof | AtError

  /** All bytes up to the next end of file or failure, and the outcomes that come after it. */
  datatype Stream = Stream(data: seq<Byte>, stop: Stop, rest: seq<Outcome>)

  /** What a descriptor delivers. Once its outcomes are used up, it is at the end of the file. */
  function Delivered(script: seq<Outcome>): Stream {
    if script == [] then Stream([], AtEof, [])
    else
      match script[0]
      case Data(bytes) => var s := Delivered(script[1..]); s.(data := bytes + s.data)
      case EndOfFile => Stream([], AtEof, script[1..])
      case Interrupted => Delivered(script[1..])
      case Failed => Stream([], AtError, script[1..])
  }

  /** The script after n bytes have been taken from its first outcome. */
  function Taken(script: seq<Outcome>, n: nat): seq<Outcome>
    requires script != [] && (script[0].Data? ==> n <= |script[0].bytes|)
  {
    if script[0].Data? && n < |script[0].bytes| then [Data(script[0].bytes[n..])] + script[1..] else script[1..]
  }

  lemma TakenDelivers(script: seq<Outcome>, n: nat)
    requires script != [] && script[0].Data? && n <= |script[0].bytes|
    ensures Delivered(script)
         == Delivered(Taken(script, n)).(data := script[0].bytes[..n] + Delivered(Taken(script, n)).data)
  {
    var bytes, s := script[0].bytes, Delivered(script[1..]);
    assert bytes + s.data == bytes[..n] + (bytes[n..] + s.data);
    if n < |bytes| {
      assert Taken(script, n)[1..] == script[1..];
    }
  }

  /** The room for a line, without the zero byte at its end. */
  function Limit(maxlen: nat): nat { if maxlen == 0 then 0 else maxlen - 1 }

  /** The length of the line at the start of the data: up to and with the first newline, but no more than
      the limit or the data. */
  function LineLength(data: seq<Byte>, limit: nat): (m: nat)
    ensures m <= limit && m <= |data|
    ensures forall i :: 0 <= i < m - 1 ==> data[i] != NEWLINE
    ensures m < limit && m < |data| ==> m > 0 && data[m - 1] == NEWLINE
  {
    if limit == 0 || data == [] then 0
    else if data[0] == NEWLINE then 1
    else 1 + LineLength(data[1..], limit - 1)
  }

  /** Whether the line ends with a newline or at the limit, and not for want of data. */
  predicate LineEnds(data: seq<Byte>, limit: nat) {
    var m := LineLength(data, limit);
    m == limit || (m > 0 && data[m - 1] == NEWLINE)
  }

  /** What is known of the line length when the first k bytes are no newlines. */
  lemma LineLengthIs(data: seq<Byte>, limit: nat, k: nat)
    requires k <= |data| && k <= limit && NEWLINE !in data[..k]
    ensures k == limit || k == |data| ==> LineLength(data, limit) == k
    ensures k < limit && k < |data| && data[k] == NEWLINE ==> LineLength(data, limit) == k + 1
  {
    var m := LineLength(data, limit);
    assert forall i :: 0 <= i < k ==> data[i] == data[..k][i];
  }

  class Descriptor {
    var script: seq<Outcome>

    constructor (script: seq<Outcome>)
      ensures this.script == script
    {
      this.script := script;
    }

    /** At most |a| bytes; 0 at the end of the file and -1 on failure or interruption. */
    method Read(a: array<Byte>) returns (count: int, interrupted: bool)
      requires a.Length > 0
      modifies this, a
      ensures -1 <= count <= a.Length
      ensures old(script) == [] ==> count == 0 && script == []
      ensures old(script) != [] ==> match old(script)[0]
        case Data(bytes) => 0 < count == Min(|bytes|, a.Length) && a[..count] == bytes[..count] && script == Taken(old(script), count)
        case EndOfFile => count == 0 && script == old(script)[1..]
        case Interrupted => count == -1 && interrupted && script == old(script)[1..]
        case Failed => count == -1 && !interrupted && script == old(script)[1..]
    {
      interrupted := false;
      if script == [] {
        return 0, false;
      }
      match script[0]
      case Data(bytes) =>
        count := Min(|bytes|, a.Length);
        for i := 0 to count
          invariant a[..i] == bytes[..i]
          invariant script == old(script)
        {
          a[i] := bytes[i];
        }
        script := Taken(script, count);
      case EndOfFile =>
        count, script := 0, script[1..];
      case Interrupted =>
        count, interrupted, script := -1, true, script[1..];
      case Failed =>
        count, script := -1, script[1..];
    }
  }

  method Memcpy(dst: array<Byte>, off: nat, src: array<Byte>, from: nat, n: nat)
    requires dst != src && off + n <= dst.Length && from + n <= src.Length
    modifies dst
    ensures dst[off..off + n] == src[from..from + n] && dst[..off] == old(dst[..off])
  {
    for i := 0 to n
      invariant dst[off..off + i] == src[from..from + i] && dst[..off] == old(dst[..off])
    {
      dst[off + i] := src[from + i];
    }
  }

  // ----- what a caller gets from a stream -----

  /** The caller gets the first m bytes of stream a, and b is what is left. If that is not all that was
      wanted, then it is because the data ended there: at the end of the file the caller is told how much it
      got, at a failure -1, and b begins behind the end. */
  ghost predicate Served(a: Stream, m: nat, complete: bool, count: int, bytes: seq<Byte>, b: Stream) {
    && m <= |a.data| && bytes == a.data[..m]
    && if complete then count == m && b == a.(data := a.data[m..])
       else m == |a.data| && count == (if a.stop == AtEof then m else -1) && b == Delivered(a.rest)
  }

  lemma ServedNothing(a: Stream)
    ensures Served(a, 0, true, 0, [], a)
  {}

  lemma ServedMore(a: Stream, m: nat, bytes: seq<Byte>, b: Stream, n: nat, more: seq<Byte>, c: Stream)
    requires Served(a, m, true, m, bytes, b) && Served(b, n, true, n, more, c)
    ensures Served(a, m + n, true, m + n, bytes + more, c)
  {
    assert a.data[..m + n] == a.data[..m] + a.data[m..][..n];
    assert a.data[m..][n..] == a.data[m + n..];
  }

  lemma ServedUpToEnd(a: Stream, m: nat, bytes: seq<Byte>, b: Stream, count: int, none: seq<Byte>, c: Stream)
    requires Served(a, m, true, m, bytes, b) && Served(b, 0, false, count, none, c)
    ensures m == |a.data| && count == (if a.stop == AtEof then 0 else -1)
    ensures Served(a, m, false, if a.stop == AtEof then m else -1, bytes, c)
  {}

  lemma ServedFromBuffer(p: seq<Byte>, s: Stream, n: nat)
    requires n <= |p|
    ensures Served(s.(data := p + s.data), n, true, n, p[..n], s.(data := p[n..] + s.data))
  {}

  /** What is left of the stream when m bytes have been served. */
  lemma ServedLeaves(a: Stream, m: nat, bytes: seq<Byte>, b: Stream)
    requires Served(a, m, true, m, bytes, b)
    ensures bytes == a.data[..m] && m + |b.data| == |a.data| && b.stop == a.stop && b.rest == a.rest
    ensures b.data != [] ==> b.data[0] == a.data[m]
  {}

  class Reader {
    const fd: Descriptor
    const buf: array<Byte>
    var cnt: int
    var ptr: nat

    ghost predicate Valid()
      reads this
    {
      buf.Length == BUF_SIZE && (cnt > 0 ==> ptr + cnt <= BUF_SIZE)
    }

    /** The bytes read from the descriptor and not yet handed out. */
    ghost function Pending(): seq<Byte>
      reads this, buf
      requires Valid()
    {
      if cnt <= 0 then [] else buf[ptr..ptr + cnt]
    }

    /** What lies ahead of the caller. */
    ghost function Ahead(): Stream
      reads this, buf, fd
      requires Valid()
    {
      var s := Delivered(fd.script);
      s.(data := Pending() + s.data)
    }

    constructor (fd: Descriptor)
      ensures Valid() && this.fd == fd && fresh(buf) && Pending() == []
    {
      this.fd := fd;
      buf := new Byte[BUF_SIZE];
      cnt, ptr := 0, 0;
    }

    /** Fills the buffer if it is empty. The result is 1 if there are bytes, 0 at the end of the file and
        -1 on failure. */
    method Refill() returns (status: int)
      requires Valid()
      modifies this, buf, fd
      ensures Valid()
      ensures if old(Ahead()).data != [] then status == 1 && cnt > 0 && Ahead() == old(Ahead())
              else status <= 0 && Served(old(Ahead()), 0, false, status, [], Ahead())
    {
      while cnt <= 0
        invariant Valid() && Ahead() == old(Ahead())
        decreases if cnt <= 0 then 1 else 0, |fd.script|
      {
        var interrupted;
        ghost var script := fd.script;
        cnt, interrupted := fd.Read(buf);
        if cnt < 0 {
          if !interrupted {
            return -1;
          }
        } else if cnt == 0 {
          return 0;
        } else {
          TakenDelivers(script, cnt);
          ptr := 0;
        }
      }
      return 1;
    }

    /** Hands out bytes that are in the buffer. */
    method HandOut(usrbuf: array<Byte>, off: nat, n: nat)
      requires Valid() && usrbuf != buf && off + n <= usrbuf.Length && 0 < cnt && n <= cnt
      modifies this, usrbuf
      ensures Valid() && usrbuf[..off] == old(usrbuf[..off])
      ensures Served(old(Ahead()), n, true, n, usrbuf[off..off + n], Ahead())
    {
      hide Delivered, Served;
      ghost var pending := Pending();
      ServedFromBuffer(pending, Delivered(fd.script), n);
      assert pending == buf[ptr..ptr + cnt] && pending[..n] == buf[ptr..ptr + n];
      Memcpy(usrbuf, off, buf, ptr, n);
      assert usrbuf[off..off + n] == pending[..n];
      ptr := ptr + n;
      cnt := cnt - n;
      assert Pending() == pending[n..];
    }

    /** Hands out at most n bytes, from a single fill of the buffer. */
    method RioRead(usrbuf: array<Byte>, off: nat, n: nat) returns (count: int)
      requires Valid() && usrbuf != buf && off + n <= usrbuf.Length
      modifies this, buf, fd, usrbuf
      ensures Valid() && count <= n && usrbuf[..off] == old(usrbuf[..off])
      ensures if old(Ahead()).data != []
              then 0 <= count && (n > 0 ==> count > 0) && Served(old(Ahead()), count, true, count, usrbuf[off..off + count], Ahead())
              else count <= 0 && Served(old(Ahead()), 0, false, count, [], Ahead())
    {
      hide Delivered, Served, Ahead;
      var status := Refill();
      if status <= 0 {
        return status;
      }
      count := if cnt < n then cnt else n;
      HandOut(usrbuf, off, count);
    }

    /** Reads n bytes, or as many as there are up to the end of the file. */
    method ReadNb(usrbuf: array<Byte>, n: nat) returns (count: int)
      requires Valid() && usrbuf != buf && n <= usrbuf.Length
      modifies this, buf, fd, usrbuf
      ensures Valid()
      ensures var a := old(Ahead()); var m := Min(n, |a.data|);
        Served(a, m, m == n, count, usrbuf[..m], Ahead())
    {
      hide Delivered, Served, Ahead;
      ghost var a := Ahead();
      ServedNothing(a);
      var done := 0;
      while done < n
        invariant Valid() && done <= n
        invariant Served(a, done, true, done, usrbuf[..done], Ahead())
        decreases n - done
      {
        ghost var bytes, b := usrbuf[..done], Ahead();
        ServedLeaves(a, done, bytes, b);
        count := RioRead(usrbuf, done, n - done);
        if b.data == [] {
          ServedUpToEnd(a, done, bytes, b, count, [], Ahead());
        } else {
          ServedMore(a, done, bytes, b, count, usrbuf[done..done + count], Ahead());
          assert usrbuf[..done + count] == bytes + usrbuf[done..done + count];
        }
        if count < 0 {
          return -1;
        } else if count == 0 {
          return done;
        }
        done := done + count;
      }
      ServedLeaves(a, done, usrbuf[..done], Ahead());
      return done;
    }

    /** Reads a line of at most maxlen - 1 bytes and ends it with a zero byte, unless there is nothing left. */
    method ReadLineB(usrbuf: array<Byte>, maxlen: nat) returns (count: int)
      requires Valid() && usrbuf != buf && maxlen <= usrbuf.Length && usrbuf.Length > 0
      modifies this, buf, fd, usrbuf
      ensures Valid()
      ensures var a, limit := old(Ahead()), Limit(maxlen); var m := LineLength(a.data, limit);
        && m < usrbuf.Length && Served(a, m, LineEnds(a.data, limit), count, usrbuf[..m], Ahead())
        && (count > 0 || (count == 0 && LineEnds(a.data, limit)) ==> usrbuf[m] == 0)
    {
      hide Delivered, Served, Ahead, LineLength;
      ghost var a, limit := Ahead(), Limit(maxlen);
      ServedNothing(a);
      var c := new Byte[1];
      var n := 1;
      while n < maxlen
        invariant Valid() && 1 <= n && n - 1 <= limit && n - 1 <= |a.data| && NEWLINE !in a.data[..n - 1]
        invariant Served(a, n - 1, true, n - 1, usrbuf[..n - 1], Ahead())
      {
        ghost var k, bytes, b := n - 1, usrbuf[..n - 1], Ahead();
        ServedLeaves(a, k, bytes, b);
        LineLengthIs(a.data, limit, k);
        var rc := RioRead(c, 0, 1);
        if rc == 1 {
          ServedLeaves(b, 1, c[0..1], Ahead());
          ServedMore(a, k, bytes, b, 1, c[0..1], Ahead());
          usrbuf[n - 1] := c[0];
          assert usrbuf[..n] == bytes + c[0..1];
          n := n + 1;
          if c[0] == NEWLINE {
            break;
          }
        } else {
          ServedUpToEnd(a, k, bytes, b, rc, [], Ahead());
          if rc == 0 {
            if n == 1 {
              return 0;
            }
            break;
          } else {
            return -1;
          }
        }
      }
      usrbuf[n - 1] := 0;
      return n - 1;
    }
  }
}
