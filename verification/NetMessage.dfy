/** Cutting a peer's byte stream into messages (src/net.cpp). */
module NetMessage {
  import opened Basics

  type Byte = x: nat | x < 256

  const HEADER_SIZE := 24
  const MAX_SIZE := 0x02000000
  const MAX_PROTOCOL_MESSAGE_LENGTH := 2 * 1024 * 1024

  // --- What the stream means ---

  /** A message so far: header bytes, then data bytes. */
  datatype Message = Message(header: seq<Byte>, data: seq<Byte>)

  /** The declared size: bytes 16 to 19 of the header, little endian. */
  function SizeOf(header: seq<Byte>): nat
    requires |header| == HEADER_SIZE
  {
    header[16] as int + 256 * header[17] as int + 65536 * header[18] as int + 16777216 * header[19] as int
  }

  predicate Complete(m: Message) { |m.header| == HEADER_SIZE && |m.data| == SizeOf(m.header) }

  /** A message as it can be while bytes arrive. */
  predicate Sound(m: Message) {
    |m.header| <= HEADER_SIZE && (|m.header| < HEADER_SIZE ==> m.data == []) &&
    (|m.header| == HEADER_SIZE ==> SizeOf(m.header) <= MAX_PROTOCOL_MESSAGE_LENGTH && |m.data| <= SizeOf(m.header))
  }

  /** All but the last message are complete, and none is without bytes. */
  ghost predicate Queue(q: seq<Message>) {
    (forall k :: 0 <= k < |q| ==> Sound(q[k]) && q[k].header != []) && (forall k :: 0 <= k < |q| - 1 ==> Complete(q[k]))
  }

  /** The message the next byte belongs to, in its place. */
  function Opened(q: seq<Message>): (r: seq<Message>)
    ensures r != []
  {
    if q == [] || Complete(q[|q| - 1]) then q + [Message([], [])] else q
  }

  /** One more byte; None when a header declares too much. */
  function Fed(q: seq<Message>, b: Byte): Option<seq<Message>> {
    var r := Opened(q);
    var m := r[|r| - 1];
    var n := if |m.header| < HEADER_SIZE then m.(header := m.header + [b]) else m.(data := m.data + [b]);
    if |n.header| == HEADER_SIZE && SizeOf(n.header) > MAX_PROTOCOL_MESSAGE_LENGTH then None
    else Some(r[..|r| - 1] + [n])
  }

  /** All bytes of a stretch, one by one. */
  function FedAll(q: seq<Message>, s: seq<Byte>): Option<seq<Message>> {
    if s == [] then Some(q)
    else
      match FedAll(q, s[..|s| - 1])
      case None => None
      case Some(r) => Fed(r, s[|s| - 1])
  }

  lemma FedAllSnoc(q: seq<Message>, s: seq<Byte>, b: Byte)
    ensures FedAll(q, s + [b]) == match FedAll(q, s) case None => None case Some(r) => Fed(r, b)
  {
    assert (s + [b])[..|s|] == s;
  }

  lemma FedNothing(q: seq<Message>, s: seq<Byte>)
    requires s == []
    ensures FedAll(q, s) == Some(q)
  {
  }

  lemma {:induction false} FedAllSplit(q: seq<Message>, a: seq<Byte>, b: seq<Byte>)
    ensures FedAll(q, a + b) == match FedAll(q, a) case None => None case Some(r) => FedAll(r, b)
  {
    hide FedAll, Fed;
    if b == [] {
      assert a + b == a;
      if FedAll(q, a).Some? { FedNothing(FedAll(q, a).value, b); }
    } else {
      var t, x := b[..|b| - 1], b[|b| - 1];
      FedAllSplit(q, a, t);
      assert b == t + [x] && a + b == (a + t) + [x];
      FedAllSnoc(q, a + t, x);
      if FedAll(q, a).Some? { FedAllSnoc(FedAll(q, a).value, t, x); }
    }
  }

  /** The length of the longest stretch from the start that is accepted. */
  function Accepted(q: seq<Message>, s: seq<Byte>): (k: nat)
    ensures k <= |s| && FedAll(q, s[..k]).Some? && (k < |s| ==> FedAll(q, s[..k + 1]) == None)
  {
    if FedAll(q, s).Some? then
      assert s[..|s|] == s;
      |s|
    else
      var t := s[..|s| - 1];
      var k := Accepted(q, t);
      assert t[..k] == s[..k] && (k < |t| ==> t[..k + 1] == s[..k + 1]) && s[..|s|] == s;
      k
  }

  /** Nothing longer is accepted. */
  lemma {:induction false} AcceptedIs(q: seq<Message>, s: seq<Byte>, k: nat)
    requires k < |s| && FedAll(q, s[..k]).Some? && FedAll(q, s[..k + 1]) == None
    ensures Accepted(q, s) == k && FedAll(q, s) == None
    decreases |s|
  {
    var t := s[..|s| - 1];
    if k + 1 == |s| {
      assert s[..k + 1] == s && t == s[..k];
    } else {
      assert t[..k] == s[..k] && t[..k + 1] == s[..k + 1];
      AcceptedIs(q, t, k);
    }
  }

  /** A stream cut in two is refused at the same byte. */
  lemma AcceptedSplit(q: seq<Message>, a: seq<Byte>, b: seq<Byte>)
    ensures Accepted(q, a + b) ==
      if FedAll(q, a).None? then Accepted(q, a) else |a| + Accepted(FedAll(q, a).value, b)
  {
    hide FedAll, Accepted;
    FedAllSplit(q, a, b);
    AcceptedWhole(q, a + b);
    if FedAll(q, a).None? {
      AcceptedWhole(q, a);
      var k := Accepted(q, a);
      assert (a + b)[..k] == a[..k] && (a + b)[..k + 1] == a[..k + 1];
      AcceptedIs(q, a + b, k);
    } else {
      var r := FedAll(q, a).value;
      AcceptedWhole(r, b);
      var k := Accepted(r, b);
      if k < |b| {
        assert (a + b)[..|a| + k] == a + b[..k] && (a + b)[..|a| + k + 1] == a + b[..k + 1];
        FedAllSplit(q, a, b[..k]);
        FedAllSplit(q, a, b[..k + 1]);
        AcceptedIs(q, a + b, |a| + k);
      }
    }
  }

  lemma AcceptedWhole(q: seq<Message>, s: seq<Byte>)
    ensures Accepted(q, s) == |s| <==> FedAll(q, s).Some?
  {
    if Accepted(q, s) == |s| { assert s[..|s|] == s; }
  }

  function Bytes(q: seq<Message>): seq<Byte> {
    if q == [] then [] else Bytes(q[..|q| - 1]) + (q[|q| - 1].header + q[|q| - 1].data)
  }

  lemma BytesSnoc(q: seq<Message>, m: Message)
    ensures Bytes(q + [m]) == Bytes(q) + (m.header + m.data)
  {
    assert (q + [m])[..|q|] == q;
  }

  /** The declared size of a complete header is acceptable; an incomplete one says nothing yet. */
  predicate Acceptable(h: seq<Byte>) { |h| == HEADER_SIZE ==> SizeOf(h) <= MAX_PROTOCOL_MESSAGE_LENGTH }

  /** The open message with one more byte. */
  function Grown(m: Message, b: Byte): Message {
    if |m.header| < HEADER_SIZE then m.(header := m.header + [b]) else m.(data := m.data + [b])
  }

  lemma FedLast(before: seq<Message>, m: Message, b: Byte)
    requires !Complete(m)
    ensures Fed(before + [m], b) == if Acceptable(Grown(m, b).header) then Some(before + [Grown(m, b)]) else None
  {
    var q := before + [m];
    assert Opened(q) == q && q[..|q| - 1] == before;
  }

  lemma FedOpen(q: seq<Message>, b: Byte)
    ensures Fed(q, b) == Fed(Opened(q), b)
  {
    var r := Opened(q);
    assert !Complete(Message([], []));
  }

  lemma QueueGrown(before: seq<Message>, m: Message, b: Byte)
    requires !Complete(m) && Sound(m) && Acceptable(Grown(m, b).header)
    requires forall k :: 0 <= k < |before| ==> Sound(before[k]) && before[k].header != [] && Complete(before[k])
    ensures Queue(before + [Grown(m, b)])
  {
    var q := before + [Grown(m, b)];
    assert forall k :: 0 <= k < |before| ==> q[k] == before[k];
  }

  lemma FedKeeps(q: seq<Message>, b: Byte)
    requires Queue(q) && Fed(q, b).Some?
    ensures Queue(Fed(q, b).value) && Bytes(Fed(q, b).value) == Bytes(q) + [b]
  {
    hide Fed, Bytes, Grown;
    var r := Opened(q);
    var m, before := r[|r| - 1], r[..|r| - 1];
    assert r == before + [m];
    FedOpen(q, b);
    FedLast(before, m, b);
    QueueGrown(before, m, b);
    BytesSnoc(before, m);
    BytesSnoc(before, Grown(m, b));
    GrownBytes(m, b);
    if q == [] || Complete(q[|q| - 1]) {
      assert before == q;
      assert m.header + m.data == [];
    }
    assert Bytes(before) + (m.header + m.data + [b]) == Bytes(before) + (m.header + m.data) + [b];
  }

  lemma GrownBytes(m: Message, b: Byte)
    requires Sound(m)
    ensures Grown(m, b).header + Grown(m, b).data == m.header + m.data + [b]
  {
  }

  /** No byte is lost, added or moved: the messages hold exactly the bytes that arrived. */
  lemma {:induction false} NothingLost(q: seq<Message>, s: seq<Byte>)
    requires Queue(q) && FedAll(q, s).Some?
    ensures Queue(FedAll(q, s).value) && Bytes(FedAll(q, s).value) == Bytes(q) + s
  {
    hide FedAll, Fed, Bytes, Queue;
    if s == [] {
      FedNothing(q, s);
      assert Bytes(q) + s == Bytes(q);
    } else {
      var t, b := s[..|s| - 1], s[|s| - 1];
      assert s == t + [b];
      FedAllSnoc(q, t, b);
      NothingLost(q, t);
      FedKeeps(FedAll(q, t).value, b);
      assert Bytes(q) + s == Bytes(q) + t + [b];
    }
  }

  /** Replacing the last message of a queue by an earlier stage of it. */
  lemma Earlier(before: seq<Message>, m: Message, n: Message, b: Byte)
    requires Queue(before + [m]) && n.header != [] && Sound(n) && !Complete(n)
    requires m == Grown(n, b)
    ensures Queue(before + [n]) && Fed(before + [n], b) == Some(before + [m])
  {
    var q, p := before + [m], before + [n];
    assert q[|before|] == m;
    forall k | 0 <= k < |before| ensures Sound(p[k]) && p[k].header != [] && Complete(p[k]) { assert p[k] == q[k]; }
    FedLast(before, n, b);
  }

  lemma FirstByte(before: seq<Message>, b: Byte)
    requires Queue(before + [Message([b], [])])
    ensures Queue(before) && Fed(before, b) == Some(before + [Message([b], [])])
  {
    var q := before + [Message([b], [])];
    forall k | 0 <= k < |before| ensures Sound(before[k]) && before[k].header != [] && Complete(before[k]) {
      assert before[k] == q[k];
    }
    assert Opened(before) == before + [Message([], [])];
    assert (before + [Message([], [])])[..|before|] == before;
    assert [] + [b] == [b];
  }

  /** The state before the last byte. */
  lemma Unfed(q: seq<Message>) returns (p: seq<Message>, b: Byte)
    requires Queue(q) && q != []
    ensures Queue(p) && Fed(p, b) == Some(q) && Bytes(q) == Bytes(p) + [b]
  {
    hide Fed, Bytes;
    var m, before := q[|q| - 1], q[..|q| - 1];
    assert q == before + [m];
    BytesSnoc(before, m);
    if m.data != [] {
      b := m.data[|m.data| - 1];
      var n := m.(data := m.data[..|m.data| - 1]);
      assert m.data == n.data + [b];
      Earlier(before, m, n, b);
      p := before + [n];
      BytesSnoc(before, n);
    } else {
      b := m.header[|m.header| - 1];
      var n := m.(header := m.header[..|m.header| - 1]);
      assert m.header == n.header + [b];
      BytesSnoc(before, n);
      if n.header == [] {
        p := before;
        assert m == Message([b], []);
        FirstByte(before, b);
      } else {
        Earlier(before, m, n, b);
        p := before + [n];
      }
    }
  }

  /** Messages laid end to end are cut apart again, every one where it was. */
  lemma {:induction false} CutApart(q: seq<Message>)
    requires Queue(q)
    ensures FedAll([], Bytes(q)) == Some(q)
    decreases |Bytes(q)|
  {
    if q != [] {
      var p, b := Unfed(q);
      CutApart(p);
      assert Bytes(q)[..|Bytes(q)| - 1] == Bytes(p);
    }
  }

  // --- What a sender writes ---

  /** CMessageHeader and the data: start bytes and command, size, checksum, data. */
  datatype Sent = Sent(startAndCommand: seq<Byte>, checksum: seq<Byte>, data: seq<Byte>)

  predicate Sendable(m: Sent) { |m.startAndCommand| == 16 && |m.checksum| == 4 && |m.data| <= 2097152 }

  /** A 32-bit number, low byte first. */
  function Uint32(n: nat): (s: seq<Byte>)
    requires n < 0x1_0000_0000
    ensures |s| == 4
  {
    [n % 256, n / 256 % 256, n / 65536 % 256, n / 16777216]
  }

  /** The size a header declares is the number written in its bytes 16 to 19. */
  lemma SizeRead(header: seq<Byte>, n: nat)
    requires |header| == HEADER_SIZE && n < 0x1_0000_0000 && header[16..20] == Uint32(n)
    ensures SizeOf(header) == n
  {
    assert forall k :: 0 <= k < 4 ==> header[16 + k] == header[16..20][k];
    assert n == 256 * (n / 256) + n % 256 && n / 256 == 256 * (n / 65536) + n / 256 % 256;
    assert n / 65536 == 256 * (n / 16777216) + n / 65536 % 256;
  }

  function Arriving(m: Sent): (r: Message)
    requires Sendable(m)
  {
    Message(m.startAndCommand + Uint32(|m.data|) + m.checksum, m.data)
  }

  lemma ArrivingComplete(m: Sent)
    requires Sendable(m)
    ensures Complete(Arriving(m)) && Sound(Arriving(m)) && Arriving(m).header != []
  {
    var h := Arriving(m).header;
    assert h[16..20] == Uint32(|m.data|);
    SizeRead(h, |m.data|);
  }

  function Wire(sent: seq<Sent>): seq<Byte>
    requires forall k :: 0 <= k < |sent| ==> Sendable(sent[k])
  {
    if sent == [] then [] else
    var m := sent[|sent| - 1];
    assert Sendable(m);
    Wire(sent[..|sent| - 1]) + (m.startAndCommand + Uint32(|m.data|) + m.checksum + m.data)
  }

  function Arrivals(sent: seq<Sent>): (q: seq<Message>)
    requires forall k :: 0 <= k < |sent| ==> Sendable(sent[k])
    ensures |q| == |sent|
  {
    seq(|sent|, k requires 0 <= k < |sent| => Arriving(sent[k]))
  }

  lemma {:induction false} WireBytes(sent: seq<Sent>)
    requires forall k :: 0 <= k < |sent| ==> Sendable(sent[k])
    ensures Bytes(Arrivals(sent)) == Wire(sent)
  {
    if sent != [] {
      WireBytes(sent[..|sent| - 1]);
      assert Arrivals(sent)[..|sent| - 1] == Arrivals(sent[..|sent| - 1]);
    }
  }

  /** Any messages of at most 2 MiB, one after another, arrive as those messages: each with
      its own header and data, and nothing left open. */
  lemma SentIsReceived(sent: seq<Sent>)
    requires forall k :: 0 <= k < |sent| ==> Sendable(sent[k])
    ensures FedAll([], Wire(sent)) == Some(Arrivals(sent))
    ensures forall k :: 0 <= k < |sent| ==> Complete(Arrivals(sent)[k]) && Arrivals(sent)[k].data == sent[k].data
  {
    hide FedAll, Wire, Bytes, Complete, Sound;
    forall k | 0 <= k < |sent| ensures Complete(Arrivals(sent)[k]) && Sound(Arrivals(sent)[k]) {
      ArrivingComplete(sent[k]);
    }
    WireBytes(sent);
    CutApart(Arrivals(sent));
  }

  /** A header that declares more is refused with its last byte, and not before. */
  lemma TooLongIsRefused(header: seq<Byte>, n: nat)
    requires |header| == HEADER_SIZE && 2097152 < n < 0x1_0000_0000 && header[16..20] == Uint32(n)
    ensures FedAll([], header) == None && FedAll([], header[..23]) == Some([Message(header[..23], [])])
  {
    hide FedAll, SizeOf;
    SizeRead(header, n);
    FedOpened([], header);
    FedOpened([], header[..23]);
    var none: seq<Byte> := [];
    var start := [Message(none, [])];
    assert Opened([]) == start == [] + start && none + header == header && none + header[..23] == header[..23];
    FedHeader([], none, header);
    FedHeader([], none, header[..23]);
    assert [] + [Message(header[..23], [])] == [Message(header[..23], [])];
  }

  // --- Chunks ---

  lemma FedOpened(q: seq<Message>, s: seq<Byte>)
    requires s != []
    ensures FedAll(q, s) == FedAll(Opened(q), s)
    decreases |s|
  {
    hide FedAll, Fed, Opened;
    var t, b := s[..|s| - 1], s[|s| - 1];
    assert s == t + [b];
    FedAllSnoc(q, t, b);
    FedAllSnoc(Opened(q), t, b);
    if t == [] {
      FedNothing(q, t);
      FedNothing(Opened(q), t);
      FedOpen(q, b);
    } else {
      FedOpened(q, t);
    }
  }

  /** Up to the end of the header a chunk is simply appended to it. */
  lemma {:induction false} FedHeader(before: seq<Message>, h: seq<Byte>, s: seq<Byte>)
    requires |h| < HEADER_SIZE && |h| + |s| <= HEADER_SIZE
    ensures FedAll(before + [Message(h, [])], s) ==
      if Acceptable(h + s) then Some(before + [Message(h + s, [])]) else None
  {
    hide FedAll, Fed;
    var q := before + [Message(h, [])];
    if s == [] {
      assert h + s == h;
      FedNothing(q, s);
    } else {
      var t, b := s[..|s| - 1], s[|s| - 1];
      FedHeader(before, h, t);
      assert s == t + [b] && h + s == (h + t) + [b];
      FedAllSnoc(q, t, b);
      FedLast(before, Message(h + t, []), b);
    }
  }

  /** Up to the end of the data a chunk is simply appended to it. */
  lemma {:induction false} FedData(before: seq<Message>, m: Message, s: seq<Byte>)
    requires Sound(m) && |m.header| == HEADER_SIZE && |m.data| + |s| <= SizeOf(m.header)
    ensures FedAll(before + [m], s) == Some(before + [m.(data := m.data + s)])
  {
    hide FedAll, Fed;
    if s == [] {
      assert m.data + s == m.data;
      FedNothing(before + [m], s);
    } else {
      var t, b := s[..|s| - 1], s[|s| - 1];
      FedData(before, m, t);
      assert s == t + [b] && m.data + s == (m.data + t) + [b];
      FedAllSnoc(before + [m], t, b);
      FedLast(before, m.(data := m.data + t), b);
    }
  }

  // --- The receive buffer ---

  /** CNetMessage: a header buffer of fixed size and a data buffer allocated a little ahead. */
  datatype Buffer = Buffer(inData: bool, hdrbuf: seq<Byte>, hdrPos: nat, size: nat, recv: seq<Byte>, dataPos: nat)

  const AHEAD := 256 * 1024

  predicate Valid(m: Buffer) {
    && |m.hdrbuf| == HEADER_SIZE && m.hdrPos <= HEADER_SIZE
    && (m.inData <==> m.hdrPos == HEADER_SIZE)
    && (!m.inData ==> m.recv == [] && m.dataPos == 0)
    && (m.inData ==> m.size == SizeOf(m.hdrbuf) <= MAX_PROTOCOL_MESSAGE_LENGTH)
    && (m.inData ==> m.dataPos <= |m.recv| <= m.size && |m.recv| <= m.dataPos + AHEAD)
  }

  function Seen(m: Buffer): Message
    requires Valid(m)
  {
    Message(m.hdrbuf[..m.hdrPos], m.recv[..m.dataPos])
  }

  predicate IsComplete(m: Buffer) { m.inData && m.size == m.dataPos }

  /** A complete message's buffer is exactly as long as declared. */
  lemma CompleteBuffer(m: Buffer)
    requires Valid(m)
    ensures IsComplete(m) <==> Complete(Seen(m))
    ensures IsComplete(m) ==> |m.recv| == m.size && Seen(m).data == m.recv
    ensures Sound(Seen(m))
  {
    assert m.hdrbuf[..HEADER_SIZE] == m.hdrbuf;
  }

  /** buf with s written over it from position at. */
  function Written(buf: seq<Byte>, at: nat, s: seq<Byte>): (r: seq<Byte>)
    requires at + |s| <= |buf|
    ensures |r| == |buf| && r[..at + |s|] == buf[..at] + s
  {
    buf[..at] + s + buf[at + |s|..]
  }

  function Zeros(n: nat): (s: seq<Byte>)
    ensures |s| == n
  {
    seq(n, _ => 0)
  }

  /** Copies what fits of the header; -1 when a complete one declares more than MAX_SIZE. */
  method ReadHeader(m: Buffer, pch: seq<Byte>) returns (r: Buffer, handled: int)
    requires Valid(m) && !m.inData && pch != []
    ensures handled == -1 || 0 < handled <= |pch|
    ensures var need := HEADER_SIZE - m.hdrPos;
      handled == -1 <==> need <= |pch| && SizeOf(m.hdrbuf[..m.hdrPos] + pch[..need]) > MAX_SIZE
    ensures handled > 0 ==> handled == (if HEADER_SIZE - m.hdrPos < |pch| then HEADER_SIZE - m.hdrPos else |pch|)
    ensures handled == -1 ==> !r.inData
    ensures handled > 0 ==> r.hdrPos == m.hdrPos + handled
    ensures handled > 0 ==> |r.hdrbuf| == HEADER_SIZE && r.hdrbuf[..r.hdrPos] == m.hdrbuf[..m.hdrPos] + pch[..handled]
    ensures handled > 0 ==> r.inData == (r.hdrPos == HEADER_SIZE) && r.recv == [] && r.dataPos == 0
    ensures handled > 0 && r.inData ==> r.size == SizeOf(r.hdrbuf)
  {
    var remaining := HEADER_SIZE - m.hdrPos;
    var copy := if remaining < |pch| then remaining else |pch|;
    r := m.(hdrbuf := Written(m.hdrbuf, m.hdrPos, pch[..copy]), hdrPos := m.hdrPos + copy);
    if r.hdrPos < HEADER_SIZE {
      return r, copy;
    }
    assert r.hdrbuf[..HEADER_SIZE] == r.hdrbuf;
    r := r.(size := SizeOf(r.hdrbuf));
    if r.size > MAX_SIZE {
      return r, -1;
    }
    r := r.(inData := true);
    handled := copy;
  }

  /** Copies what belongs to the message, growing the buffer by at most 256 KiB ahead of it. */
  method ReadData(m: Buffer, pch: seq<Byte>) returns (r: Buffer, handled: nat)
    requires Valid(m) && m.inData && !IsComplete(m) && pch != []
    ensures 0 < handled <= |pch| && m.dataPos + handled <= m.size
    ensures Valid(r) && r.inData && r.hdrbuf == m.hdrbuf && r.dataPos == m.dataPos + handled
    ensures r.recv[..r.dataPos] == m.recv[..m.dataPos] + pch[..handled]
  {
    var remaining := m.size - m.dataPos;
    var copy := if remaining < |pch| then remaining else |pch|;
    var recv := m.recv;
    if |recv| < m.dataPos + copy {
      var n := m.dataPos + copy + AHEAD;
      recv := recv + Zeros((if m.size < n then m.size else n) - |recv|);
    }
    assert recv[..m.dataPos] == m.recv[..m.dataPos];
    r := m.(recv := Written(recv, m.dataPos, pch[..copy]), dataPos := m.dataPos + copy);
    handled := copy;
  }

  ghost predicate AllValid(v: seq<Buffer>) { forall k :: 0 <= k < |v| ==> Valid(v[k]) }

  ghost function SeenAll(v: seq<Buffer>): (q: seq<Message>)
    requires AllValid(v)
    ensures |q| == |v| && forall k :: 0 <= k < |v| ==> q[k] == Seen(v[k])
  {
    seq(|v|, k requires 0 <= k < |v| => Seen(v[k]))
  }

  const FRESH := Buffer(false, Zeros(HEADER_SIZE), 0, 0xffff_ffff, [], 0)

  lemma OpenedSeen(v: seq<Buffer>)
    requires AllValid(v)
    ensures var w := if v == [] || IsComplete(v[|v| - 1]) then v + [FRESH] else v;
      AllValid(w) && SeenAll(w) == Opened(SeenAll(v)) && !IsComplete(w[|w| - 1])
  {
    hide Valid, Seen, Complete, IsComplete;
    if v != [] { CompleteBuffer(v[|v| - 1]); }
    FreshSeen();
  }

  lemma FreshSeen()
    ensures Valid(FRESH) && Seen(FRESH) == Message([], []) && !IsComplete(FRESH)
  {
  }

  /** A chunk handled by the open message: what the queue becomes, or failure. */
  lemma ChunkDone(v: seq<Buffer>, r: Buffer, s: seq<Byte>)
    requires v != [] && AllValid(v) && !IsComplete(v[|v| - 1]) && Valid(r)
    requires var m := v[|v| - 1];
      if !m.inData then
        m.hdrPos + |s| <= HEADER_SIZE && Seen(r) == Message(Seen(m).header + s, [])
      else m.dataPos + |s| <= m.size && Seen(r) == Seen(m).(data := Seen(m).data + s)
    ensures AllValid(v[..|v| - 1] + [r])
    ensures FedAll(SeenAll(v), s) == Some(SeenAll(v[..|v| - 1] + [r]))
  {
    hide FedAll, Valid, Seen, Complete, Sound, SizeOf;
    var m := v[|v| - 1];
    LastSeen(v);
    ReplacedSeen(v, r);
    var before := SeenAll(v)[..|v| - 1];
    BufferFacts(m);
    BufferFacts(r);
    if !m.inData { FedHeader(before, Seen(m).header, s); } else { FedData(before, Seen(m), s); }
  }

  lemma LastSeen(v: seq<Buffer>)
    requires v != [] && AllValid(v)
    ensures SeenAll(v) == SeenAll(v)[..|v| - 1] + [Seen(v[|v| - 1])]
  {
  }

  lemma ReplacedSeen(v: seq<Buffer>, r: Buffer)
    requires v != [] && AllValid(v) && Valid(r)
    ensures AllValid(v[..|v| - 1] + [r])
    ensures SeenAll(v[..|v| - 1] + [r]) == SeenAll(v)[..|v| - 1] + [Seen(r)]
  {
    hide Valid, Seen;
  }

  lemma BufferFacts(m: Buffer)
    requires Valid(m)
    ensures Sound(Seen(m)) && |Seen(m).header| == m.hdrPos <= HEADER_SIZE && |Seen(m).data| == m.dataPos
    ensures m.inData <==> m.hdrPos == HEADER_SIZE
    ensures m.inData ==> m.size == SizeOf(Seen(m).header) && Acceptable(Seen(m).header)
    ensures !m.inData ==> Seen(m).data == []
  {
    CompleteBuffer(m);
    assert m.hdrbuf[..HEADER_SIZE] == m.hdrbuf;
  }

  /** A chunk that completes a header declaring too much. */
  lemma ChunkRefused(v: seq<Buffer>, s: seq<Byte>)
    requires v != [] && AllValid(v) && !v[|v| - 1].inData && v[|v| - 1].hdrPos + |s| == HEADER_SIZE
    requires !Acceptable(Seen(v[|v| - 1]).header + s)
    ensures FedAll(SeenAll(v), s) == None
  {
    hide FedAll;
    var m, before := v[|v| - 1], SeenAll(v)[..|v| - 1];
    assert SeenAll(v) == before + [Seen(m)];
    assert Seen(m) == Message(Seen(m).header, []);
    FedHeader(before, Seen(m).header, s);
  }

  class Receiver {
    var msgs: seq<Buffer>

    constructor ()
      ensures msgs == []
    {
      msgs := [];
    }

    /** A stretch of bytes, however cut, does to the messages what its bytes do one by one. When it
        is refused, the messages before the open one are those of the longest stretch accepted. */
    method ReceiveMsgBytes(pch: seq<Byte>) returns (ok: bool)
      requires AllValid(msgs)
      modifies this
      ensures ok <==> FedAll(old(SeenAll(msgs)), pch).Some?
      ensures ok ==> AllValid(msgs) && SeenAll(msgs) == FedAll(old(SeenAll(msgs)), pch).value
      ensures !ok ==>
        var was := FedAll(old(SeenAll(msgs)), pch[..Accepted(old(SeenAll(msgs)), pch)]).value;
        && msgs != [] && !IsComplete(msgs[|msgs| - 1]) && AllValid(msgs[..|msgs| - 1])
        && was != [] && !Complete(was[|was| - 1]) && SeenAll(msgs[..|msgs| - 1]) == was[..|was| - 1]
    {
      hide FedAll, Valid, Opened, Seen, SeenAll, Accepted, Acceptable, Complete, IsComplete;
      ghost var q := SeenAll(msgs);
      var i := 0;
      FedNothing(q, pch[..0]);
      while i < |pch|
        invariant 0 <= i <= |pch|
        invariant AllValid(msgs) && FedAll(q, pch[..i]) == Some(SeenAll(msgs))
      {
        ghost var was, rest := SeenAll(msgs), pch[i..];
        OpenedSeen(msgs);
        if msgs == [] || IsComplete(msgs[|msgs| - 1]) {
          msgs := msgs + [FRESH];
        }
        var good, handled, m := Absorb(msgs[|msgs| - 1], pch[i..]);
        if !good {
          RefusedAt(q, was, msgs, pch, i, handled);
          msgs := msgs[..|msgs| - 1] + [m];
          return false;
        }
        ChunkDone(msgs, m, pch[i..][..handled]);
        FedOpened(was, pch[i..][..handled]);
        Continued(q, was, pch, i, handled);
        msgs := msgs[..|msgs| - 1] + [m];
        i := i + handled;
      }
      assert pch[..i] == pch;
      return true;
    }
  }

  lemma Continued(q: seq<Message>, was: seq<Message>, pch: seq<Byte>, i: nat, n: nat)
    requires i + n <= |pch| && FedAll(q, pch[..i]) == Some(was)
    ensures FedAll(q, pch[..i + n]) == FedAll(was, pch[i..][..n])
  {
    hide FedAll;
    assert pch[..i + n] == pch[..i] + pch[i..][..n];
    FedAllSplit(q, pch[..i], pch[i..][..n]);
  }

  /** The byte that completes the header is the first one refused, and up to it only the open
      message has grown. */
  lemma RefusedAt(q: seq<Message>, was: seq<Message>, v: seq<Buffer>, pch: seq<Byte>, i: nat, n: nat)
    requires 0 < n && i + n <= |pch| && FedAll(q, pch[..i]) == Some(was)
    requires v != [] && AllValid(v) && SeenAll(v) == Opened(was)
    requires !v[|v| - 1].inData && v[|v| - 1].hdrPos + n == HEADER_SIZE
    requires !Acceptable(Seen(v[|v| - 1]).header + pch[i..][..n])
    ensures Accepted(q, pch) == i + n - 1 && FedAll(q, pch) == None
    ensures var w := FedAll(q, pch[..i + n - 1]);
      && w.Some? && w.value != [] && !Complete(w.value[|w.value| - 1])
      && w.value[..|w.value| - 1] == SeenAll(v[..|v| - 1])
  {
    hide FedAll, Accepted, Opened;
    var chunk := pch[i..][..n];
    ChunkRefused(v, chunk);
    FedOpened(was, chunk);
    Continued(q, was, pch, i, n);
    HeaderShort(was, v, chunk[..n - 1]);
    assert chunk[..n - 1] == pch[i..][..n - 1];
    Continued(q, was, pch, i, n - 1);
    assert pch[..i + n - 1 + 1] == pch[..i + n];
    AcceptedIs(q, pch, i + n - 1);
  }

  /** A chunk that leaves the header incomplete. */
  lemma HeaderShort(was: seq<Message>, v: seq<Buffer>, s: seq<Byte>)
    requires v != [] && AllValid(v) && SeenAll(v) == Opened(was) && !v[|v| - 1].inData
    requires v[|v| - 1].hdrPos + |s| == HEADER_SIZE - 1
    ensures var w := FedAll(was, s);
      && w.Some? && w.value != [] && !Complete(w.value[|w.value| - 1])
      && w.value[..|w.value| - 1] == SeenAll(v[..|v| - 1])
  {
    hide FedAll;
    var m, before := v[|v| - 1], SeenAll(v)[..|v| - 1];
    assert SeenAll(v) == before + [Seen(m)] && before == SeenAll(v[..|v| - 1]);
    assert Seen(m) == Message(Seen(m).header, []);
    if s == [] {
      FedNothing(was, s);
      assert Opened(was)[|Opened(was)| - 1] == Seen(m);
    } else {
      FedOpened(was, s);
      FedHeader(before, Seen(m).header, s);
    }
  }

  /** One turn of the loop: the open message takes at least one byte, or its header is refused. */
  method Absorb(m: Buffer, pch: seq<Byte>) returns (ok: bool, n: nat, r: Buffer)
    requires Valid(m) && !IsComplete(m) && pch != []
    ensures 0 < n <= |pch|
    ensures !ok ==> !m.inData && m.hdrPos + n == HEADER_SIZE && !Acceptable(Seen(m).header + pch[..n])
    ensures !ok ==> !IsComplete(r)
    ensures ok ==> Valid(r)
    ensures ok && !m.inData ==> m.hdrPos + n <= HEADER_SIZE && Seen(r) == Message(Seen(m).header + pch[..n], [])
    ensures ok && m.inData ==> m.dataPos + n <= m.size && Seen(r) == Seen(m).(data := Seen(m).data + pch[..n])
  {
    ok := true;
    if !m.inData {
      var handled;
      r, handled := ReadHeader(m, pch);
      if handled < 0 {
        ok := false;
        n := HEADER_SIZE - m.hdrPos;
        return;
      }
      n := handled;
      if r.inData {
        assert r.hdrbuf[..HEADER_SIZE] == r.hdrbuf;
        if r.size > MAX_PROTOCOL_MESSAGE_LENGTH {
          ok := false;
        }
      }
    } else {
      r, n := ReadData(m, pch);
    }
  }
}
