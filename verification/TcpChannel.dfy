/** The frame, and the loops that send and receive it whatever the network makes of the pieces. */
module TcpChannel {
  import opened CLib

  const HEADER_SIZE: nat := 12
  const PADDEDREQ: nat := 65536
  const PARAMSIZE: nat := 65524
  const UINT32_RANGE: int := 0x1_0000_0000

  type U32 = x: int | 0 <= x < UINT32_RANGE

  // ---- The 12-byte header ------------------------------------------------------------------------------

  /** A 32-bit word as the host stores it, least significant byte first. */
  function Word(x: U32): (s: string)
    ensures |s| == 4
  {
    [(x % 256) as char, (x / 256 % 256) as char, (x / 65536 % 256) as char, (x / 16777216) as char]
  }

  function WordValue(s: string): int
    requires |s| == 4
  {
    s[0] as int + 256 * (s[1] as int) + 65536 * (s[2] as int) + 16777216 * (s[3] as int)
  }

  lemma WordRoundTrip(x: U32)
    ensures WordValue(Word(x)) == x
  {
    assert x / 65536 == x / 256 / 256 && x / 16777216 == x / 65536 / 256;
  }

  datatype Header = Header(reqId: U32, reqSize: U32, ustatus: U32)

  function HeaderBytes(h: Header): (s: string)
    ensures |s| == HEADER_SIZE
  {
    Word(h.reqId) + Word(h.reqSize) + Word(h.ustatus)
  }

  /** The header fields a buffer shows, whatever is in it. */
  function ReqIdIn(buf: string): U32
    requires |buf| >= HEADER_SIZE
  {
    WordValue(buf[..4]) % UINT32_RANGE
  }

  function ReqSizeIn(buf: string): U32
    requires |buf| >= HEADER_SIZE
  {
    WordValue(buf[4..8]) % UINT32_RANGE
  }

  function UstatusIn(buf: string): U32
    requires |buf| >= HEADER_SIZE
  {
    WordValue(buf[8..12]) % UINT32_RANGE
  }

  lemma HeaderRoundTrip(h: Header, rest: string)
    ensures var buf := HeaderBytes(h) + rest;
            ReqIdIn(buf) == h.reqId && ReqSizeIn(buf) == h.reqSize && UstatusIn(buf) == h.ustatus
  {
    var buf := HeaderBytes(h) + rest;
    hide Word, WordValue;
    assert buf[..4] == Word(h.reqId) && buf[4..8] == Word(h.reqSize) && buf[8..12] == Word(h.ustatus);
    WordRoundTrip(h.reqId);
    WordRoundTrip(h.reqSize);
    WordRoundTrip(h.ustatus);
  }

  /** A request or reply on the wire. */
  function Frame(reqId: U32, ustatus: U32, payload: string): string
    requires |payload| < UINT32_RANGE
  {
    HeaderBytes(Header(reqId, |payload|, ustatus)) + payload
  }

  // ---- A connected socket ------------------------------------------------------------------------------

  /** `data` was written into a buffer at `off`. */
  predicate Landed(now: string, before: string, off: nat, data: string) {
    off + |data| <= |before| && now == before[..off] + data + before[off + |data|..]
  }

  /**
   * One end of a connection: what the peer has sent or will send before it stops, and what went out.
   * `send` and `recv` take any positive part of what they are given, or report an error.
   * `starved` notes that a `recv` found nothing more to come: it would have waited, or seen the end.
   */
  class Socket {
    /** Whether `send` and `recv` on it never fail. */
    const reliable: bool
    var incoming: string
    var outgoing: string
    var starved: bool

    constructor (incoming: string, reliable: bool)
      ensures this.incoming == incoming && this.reliable == reliable && outgoing == "" && !starved
    {
      this.incoming, this.reliable, outgoing, starved := incoming, reliable, "", false;
    }

    method Recv(buf: array<char>, off: nat, n: nat) returns (ret: int)
      requires off + n <= buf.Length
      modifies this, buf
      ensures outgoing == old(outgoing)
      ensures -1 <= ret <= n && (reliable ==> ret >= 0)
      ensures ret == -1 ==> incoming == old(incoming) && starved == old(starved)
      ensures ret <= 0 ==> buf[..] == old(buf[..])
      ensures ret >= 0 ==>
                && ret <= |old(incoming)|
                && (ret == 0 <==> n == 0 || old(incoming) == "")
                && incoming == old(incoming)[ret..]
                && Landed(buf[..], old(buf[..]), off, old(incoming)[..ret])
                && starved == (old(starved) || (n > 0 && old(incoming) == ""))
    {
      var fails: bool := *;
      if fails && !reliable {
        return -1;
      }
      assert Landed(buf[..], buf[..], off, incoming[..0]);
      if n == 0 {
        return 0;
      }
      if incoming == "" {
        starved := true;
        return 0;
      }
      var k: nat :| 0 < k <= n && k <= |incoming|;
      var i := 0;
      while i < k
        invariant 0 <= i <= k && outgoing == old(outgoing) && starved == old(starved) && incoming == old(incoming)
        invariant forall j :: 0 <= j < i ==> buf[off + j] == incoming[j]
        invariant forall j :: 0 <= j < off || off + i <= j < buf.Length ==> buf[j] == old(buf[j])
      {
        buf[off + i] := incoming[i];
        i := i + 1;
      }
      incoming := incoming[k..];
      return k;
    }

    method Send(data: string) returns (ret: int)
      modifies this
      ensures incoming == old(incoming) && starved == old(starved)
      ensures -1 <= ret <= |data| && (reliable ==> ret >= 0)
      ensures ret == -1 ==> outgoing == old(outgoing)
      ensures ret >= 0 ==> (ret == 0 <==> data == "") && outgoing == old(outgoing) + data[..ret]
    {
      var fails: bool := *;
      if fails && !reliable {
        return -1;
      }
      if data == "" {
        return 0;
      }
      var k: nat :| 0 < k <= |data|;
      outgoing := outgoing + data[..k];
      return k;
    }
  }

  // ---- The loops ---------------------------------------------------------------------------------------

  lemma PartThenPart(data: string, n: nat, more: nat)
    requires n + more <= |data|
    ensures data[..n] + data[n..][..more] == data[..n + more]
  {
  }

  /** After what was sent before, some first part of `data` went out, or all of it. */
  predicate SentUpTo(before: string, now: string, data: string) { before <= now <= before + data }

  /**
   * `ch_write`: the first `len` bytes of the buffer go out in order, whatever parts each `send` takes.
   * An error leaves a prefix of them sent.
   */
  method ChWrite(fd: Socket, buf: array<char>, len: nat) returns (ret: int)
    requires len <= buf.Length
    modifies fd
    ensures fd.incoming == old(fd.incoming) && fd.starved == old(fd.starved)
    ensures ret == -1 || ret == len
    ensures fd.reliable ==> ret == len
    ensures ret == len ==> fd.outgoing == old(fd.outgoing) + buf[..len]
    ensures SentUpTo(old(fd.outgoing), fd.outgoing, buf[..len])
  {
    var bytesWritten := 0;
    assert old(fd.outgoing) + buf[..0] == old(fd.outgoing);
    while true
      invariant 0 <= bytesWritten <= len
      invariant bytesWritten == len ==> len == 0
      invariant fd.outgoing == old(fd.outgoing) + buf[..bytesWritten]
      invariant fd.incoming == old(fd.incoming) && fd.starved == old(fd.starved)
      decreases len - bytesWritten
    {
      var sent := fd.Send(buf[bytesWritten..len]);
      if sent < 0 {
        assert buf[..len] == buf[..bytesWritten] + buf[bytesWritten..len];
        assert SentUpTo(old(fd.outgoing), fd.outgoing, buf[..len]);
        return -1;
      }
      PartThenPart(buf[..len], bytesWritten, sent);
      assert buf[..len][..bytesWritten] == buf[..bytesWritten] && buf[..len][bytesWritten..] == buf[bytesWritten..len];
      assert buf[..len][..bytesWritten + sent] == buf[..bytesWritten + sent];
      bytesWritten := bytesWritten + sent;
      if bytesWritten >= len {
        break;
      }
    }
    return bytesWritten;
  }

  /**
   * How many bytes `ch_read` wants once it has the 12 in `header`: the header alone when it announces
   * nothing, else header and payload, in 32-bit unsigned arithmetic.
   */
  function Wanted(header: string): nat
    requires |header| >= HEADER_SIZE
  {
    if ReqSizeIn(header) == 0 then HEADER_SIZE else (HEADER_SIZE + ReqSizeIn(header)) % UINT32_RANGE
  }

  /** What the buffer holds after `n` bytes of `stream` arrived at its start. */
  predicate Arrived(now: string, before: string, stream: string, n: nat) {
    n <= |stream| && n <= |before| && now == stream[..n] + before[n..]
  }

  lemma NoneArrived(now: string, stream: string)
    ensures Arrived(now, now, stream, 0)
  {
    assert stream[..0] + now[0..] == now;
  }

  /** One more `recv` at the place where the last one ended. */
  lemma ArrivedMore(now: string, before: string, stream: string, n: nat, data: string, next: string)
    requires Arrived(now, before, stream, n) && data <= stream[n..]
    requires Landed(next, now, n, data)
    ensures Arrived(next, before, stream, n + |data|)
    ensures |next| == |now| && next[..n] == now[..n]
  {
    assert now[..n] == stream[..n];
    assert now[n + |data|..] == before[n + |data|..];
    assert stream[..n] + data == stream[..n + |data|];
  }

  lemma SameHeader(a: string, b: string)
    requires |a| >= HEADER_SIZE && |b| >= HEADER_SIZE && a[..HEADER_SIZE] == b[..HEADER_SIZE]
    ensures ReqSizeIn(a) == ReqSizeIn(b) && Wanted(a) == Wanted(b)
    ensures ReqIdIn(a) == ReqIdIn(b) && UstatusIn(a) == UstatusIn(b)
  {
    hide WordValue;
    assert a[..4] == a[..HEADER_SIZE][..4] && a[4..8] == a[..HEADER_SIZE][4..8] && a[8..12] == a[..HEADER_SIZE][8..12];
    assert b[..4] == b[..HEADER_SIZE][..4] && b[4..8] == b[..HEADER_SIZE][4..8] && b[8..12] == b[..HEADER_SIZE][8..12];
  }

  lemma Longer(prefix: string, a: string, b: string)
    requires |prefix| >= HEADER_SIZE && prefix <= a && prefix <= b
    ensures a[..HEADER_SIZE] == b[..HEADER_SIZE]
  {
    assert a[..HEADER_SIZE] == prefix[..HEADER_SIZE] == b[..HEADER_SIZE];
  }

  /** The first loop of `ch_read`, which stops at a whole header or at the end of the stream. */
  method ReadHeader(fd: Socket, buf: array<char>) returns (bytesRead: int)
    requires HEADER_SIZE <= buf.Length
    modifies fd, buf
    ensures fd.outgoing == old(fd.outgoing)
    ensures -1 <= bytesRead <= HEADER_SIZE && (fd.reliable ==> bytesRead >= 0)
    ensures bytesRead >= 0 ==>
              && Arrived(buf[..], old(buf[..]), old(fd.incoming), bytesRead)
              && bytesRead <= |old(fd.incoming)| && fd.incoming == old(fd.incoming)[bytesRead..]
              && (bytesRead < HEADER_SIZE ==> bytesRead == |old(fd.incoming)|)
              && (|old(fd.incoming)| >= HEADER_SIZE ==> fd.starved == old(fd.starved))
  {
    hide Arrived, Landed;
    bytesRead := 0;
    ghost var stream := fd.incoming;
    assert stream[0..] == stream;
    NoneArrived(buf[..], stream);
    while true
      invariant 0 <= bytesRead < HEADER_SIZE && bytesRead <= |stream|
      invariant fd.outgoing == old(fd.outgoing)
      invariant Arrived(buf[..], old(buf[..]), stream, bytesRead)
      invariant fd.incoming == stream[bytesRead..]
      invariant |stream| >= HEADER_SIZE ==> fd.starved == old(fd.starved)
      decreases HEADER_SIZE - bytesRead
    {
      ghost var now := buf[..];
      var ret := fd.Recv(buf, bytesRead, HEADER_SIZE - bytesRead);
      if ret < 0 {
        return -1;
      }
      if ret == 0 {
        break;
      }
      ArrivedMore(now, old(buf[..]), stream, bytesRead, stream[bytesRead..][..ret], buf[..]);
      assert stream[bytesRead..][ret..] == stream[bytesRead + ret..];
      bytesRead := bytesRead + ret;
      if bytesRead >= HEADER_SIZE {
        break;
      }
    }
  }

  /** What `ch_read` promises when no `recv` failed. */
  predicate ReadOutcome(now: string, before: string, stream: string, bufsize: nat, n: int) {
    && 0 <= n <= bufsize <= |before| && HEADER_SIZE <= bufsize
    && Arrived(now, before, stream, n) && |now| == |before|
    && n >= Min(Min(|stream|, bufsize), Wanted(now))
    && (n < HEADER_SIZE ==> n == |stream|)
  }

  /** The peer sends at least what the header that arrived asks for, and that does not wrap around. */
  predicate WholeFrame(stream: string, now: string) {
    && |now| >= HEADER_SIZE && |stream| >= HEADER_SIZE && |stream| >= Wanted(now)
    && (ReqSizeIn(now) == 0 || Wanted(now) > HEADER_SIZE)
  }

  /**
   * `ch_read`. Unless `recv` fails, the bytes that arrived stand at the start of the buffer, and they are
   * as many as the header asks for, the buffer holds or the peer sent, whichever is least; with a whole
   * frame on the way it never waits for more.
   */
  method ChRead(fd: Socket, buf: array<char>, bufsize: nat) returns (bytesRead: int)
    requires HEADER_SIZE <= bufsize <= buf.Length
    modifies fd, buf
    ensures fd.outgoing == old(fd.outgoing)
    ensures -1 <= bytesRead <= bufsize && (fd.reliable ==> bytesRead >= 0)
    ensures bytesRead >= 0 ==> ReadOutcome(buf[..], old(buf[..]), old(fd.incoming), bufsize, bytesRead)
    ensures bytesRead >= 0 && WholeFrame(old(fd.incoming), buf[..]) ==> fd.starved == old(fd.starved)
  {
    hide Arrived, Landed, ReqSizeIn;
    ghost var stream := fd.incoming;
    bytesRead := ReadHeader(fd, buf);
    if bytesRead < 0 {
      return;
    }
    if ReqSizeIn(buf[..]) == 0 {
      return;
    }
    var dataLen := (HEADER_SIZE + ReqSizeIn(buf[..])) % UINT32_RANGE;
    ghost var header := buf[..HEADER_SIZE];
    assert buf[..][..HEADER_SIZE] == header == header[..HEADER_SIZE];
    SameHeader(buf[..], header);
    while true
      invariant 0 <= bytesRead <= bufsize && bytesRead <= |stream|
      invariant fd.outgoing == old(fd.outgoing)
      invariant Arrived(buf[..], old(buf[..]), stream, bytesRead)
      invariant fd.incoming == stream[bytesRead..]
      invariant buf[..HEADER_SIZE] == header
      invariant bytesRead < HEADER_SIZE ==> bytesRead == |stream|
      invariant |stream| >= HEADER_SIZE && |stream| >= dataLen > HEADER_SIZE ==>
                fd.starved == old(fd.starved) && bytesRead < dataLen
      decreases bufsize - bytesRead
    {
      ghost var now := buf[..];
      var ret := fd.Recv(buf, bytesRead, bufsize - bytesRead);
      if ret < 0 {
        return -1;
      }
      if ret == 0 {
        break;
      }
      ArrivedMore(now, old(buf[..]), stream, bytesRead, stream[bytesRead..][..ret], buf[..]);
      assert stream[bytesRead..][ret..] == stream[bytesRead + ret..];
      bytesRead := bytesRead + ret;
      Longer(now[..bytesRead - ret], now, buf[..]);
      if bytesRead >= dataLen {
        break;
      }
    }
    assert buf[..][..HEADER_SIZE] == header == header[..HEADER_SIZE];
    SameHeader(buf[..], header);
  }

  // ---- What arrives of a frame -------------------------------------------------------------------------

  /**
   * Of a frame the peer sent only `stream`, a part that ends early or the whole: all of it arrives,
   * whatever the chunks, and when the header is complete its fields are the ones that were sent.
   */
  lemma FrameArrives(reqId: U32, ustatus: U32, payload: string, stream: string, now: string, before: string,
                     bufsize: nat, n: int)
    requires HEADER_SIZE + |payload| <= bufsize < UINT32_RANGE
    requires stream <= Frame(reqId, ustatus, payload)
    requires ReadOutcome(now, before, stream, bufsize, n)
    ensures n == |stream| && now == stream + before[n..]
    ensures n >= HEADER_SIZE ==>
              ReqIdIn(now) == reqId && ReqSizeIn(now) == |payload| && UstatusIn(now) == ustatus
              && now[HEADER_SIZE..] == payload[..n - HEADER_SIZE] + before[n..]
  {
    var h := Header(reqId, |payload|, ustatus);
    var frame := Frame(reqId, ustatus, payload);
    hide Word, WordValue, Frame, HeaderBytes, ReqSizeIn, ReqIdIn, UstatusIn, Wanted, ReadOutcome;
    FrameIs(reqId, ustatus, payload);
    HeaderRoundTrip(h, payload);
    if n >= HEADER_SIZE {
      HeaderArrives(now, before, frame, stream, bufsize, n);
      WantedOf(frame);
      AllArrives(now, before, stream, bufsize, n);
      assert frame[HEADER_SIZE..] == payload;
      assert stream[HEADER_SIZE..] == frame[HEADER_SIZE..][..n - HEADER_SIZE];
      assert now[HEADER_SIZE..] == stream[HEADER_SIZE..] + before[n..];
    } else {
      AllArrives(now, before, stream, bufsize, n);
    }
  }

  lemma HeaderArrives(now: string, before: string, frame: string, stream: string, bufsize: nat, n: int)
    requires ReadOutcome(now, before, stream, bufsize, n) && n >= HEADER_SIZE && stream <= frame
    ensures |frame| >= HEADER_SIZE && ReqIdIn(now) == ReqIdIn(frame) && ReqSizeIn(now) == ReqSizeIn(frame)
    ensures UstatusIn(now) == UstatusIn(frame) && Wanted(now) == Wanted(frame)
  {
    hide ReqSizeIn, ReqIdIn, UstatusIn, Wanted;
    assert now[..HEADER_SIZE] == stream[..HEADER_SIZE] == frame[..HEADER_SIZE];
    SameHeader(now, frame);
  }

  lemma WantedOf(frame: string)
    requires |frame| >= HEADER_SIZE && HEADER_SIZE + ReqSizeIn(frame) < UINT32_RANGE
    ensures Wanted(frame) == HEADER_SIZE + ReqSizeIn(frame)
  {
    hide ReqSizeIn;
  }

  lemma AllArrives(now: string, before: string, stream: string, bufsize: nat, n: int)
    requires ReadOutcome(now, before, stream, bufsize, n) && |stream| <= bufsize
    requires n >= HEADER_SIZE ==> |stream| <= Wanted(now)
    ensures n == |stream| && now == stream + before[n..]
  {
    assert stream[..n] == stream;
  }

  lemma FrameIs(reqId: U32, ustatus: U32, payload: string)
    requires |payload| < UINT32_RANGE
    ensures Frame(reqId, ustatus, payload) == HeaderBytes(Header(reqId, |payload|, ustatus)) + payload
    ensures |Frame(reqId, ustatus, payload)| == HEADER_SIZE + |payload|
  {
  }

  /** `ch_write` on one end and `ch_read` on the other carry any one frame that fits the buffer. */
  lemma FrameDelivered(reqId: U32, ustatus: U32, payload: string, now: string, before: string, bufsize: nat, n: int)
    requires HEADER_SIZE + |payload| <= bufsize < UINT32_RANGE
    requires ReadOutcome(now, before, Frame(reqId, ustatus, payload), bufsize, n)
    ensures n == HEADER_SIZE + |payload| && now == Frame(reqId, ustatus, payload) + before[n..]
  {
    FrameArrives(reqId, ustatus, payload, Frame(reqId, ustatus, payload), now, before, bufsize, n);
    hide HeaderBytes;
  }
}
