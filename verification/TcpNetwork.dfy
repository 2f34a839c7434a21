/**
 * Two established sockets over a network that may lose, duplicate and reorder
 * segments. History variables record the bytes each side was given to send, the
 * bytes it appended to rx, and the unwrapped position of every segment.
 */
module TcpNetwork {
  import opened Basics
  import opened Bits
  import opened Tcp

  /**
   * A socket with its history: sent is everything tcp_send_data accepted, una how
   * much of it (and of the FINs after it) is acknowledged, got everything ever
   * appended to rx, of which the reader has taken drained bytes. base is the
   * sequence number of the first byte sent.
   */
  datatype End = End(
    s: Socket, base: u32, sent: seq<byte>, una: nat, fins: nat,
    got: seq<byte>, drained: nat, finGot: bool)

  /** A segment with its position in the sender's stream and the position it acknowledges. */
  datatype Packet = Packet(g: Segment, off: nat, ackOff: nat)

  /** More FINs than any program sends; keeps the unacknowledged range below 2^31. */
  const FIN_LIMIT := 0x4000_0000

  // ---------------------------------------------------------- sender mirror

  /**
   * tx holds exactly the sent bytes from una on; the counters are una and the end of
   * the stream mod 2^32; while there is something in tx the timer runs.
   */
  ghost predicate Mirror(e: End)
  {
    && e.una <= |e.sent| + e.fins
    && e.s.sndUna == (e.base + e.una) % M
    && e.s.seqno == (e.base + |e.sent| + e.fins) % M
    && e.s.tx == e.sent[Min(e.una, |e.sent|)..]
    && |e.s.tx| <= TX_BUF_SIZE
    && e.fins <= FIN_LIMIT + 1
    && (e.s.state == ESTABLISHED ==> e.fins == 0)
    && e.s.state != SYN_SENT
    && e.s.peerMss <= OUR_MSS
    && (e.s.state == ESTABLISHED && e.s.tx != [] ==> e.s.rtoDeadline > 0)
  }

  /** How far an acknowledgement moves una. */
  ghost function Acked(s: Socket, remoteAck: u32): nat
  {
    var acked := Sub32(remoteAck, s.sndUna);
    if acked > Sub32(s.seqno, s.sndUna) then 0 else acked
  }

  lemma Outstanding(e: End)
    requires Mirror(e)
    ensures Sub32(e.s.seqno, e.s.sndUna) == |e.sent| + e.fins - e.una <= TX_BUF_SIZE + e.fins
  {
    assert |e.sent| + e.fins - e.una <= TX_BUF_SIZE + e.fins;
    SubAhead(e.base, |e.sent| + e.fins, e.una);
  }

  /** Any acknowledgement number whatever keeps the mirror. */
  lemma HandleAckMirror(e: End, remoteAck: u32, now: nat)
    requires Mirror(e)
    ensures Mirror(e.(s := HandleAck(e.s, remoteAck, now), una := e.una + Acked(e.s, remoteAck)))
  {
    Outstanding(e);
    AddMod(e.base, e.una, Acked(e.s, remoteAck));
    var n := Acked(e.s, remoteAck);
    if n > 0 {
      var k := if n > |e.s.tx| then |e.s.tx| else n;
      var lo := Min(e.una, |e.sent|);
      assert e.sent[lo..][k..] == e.sent[lo + k..];
    }
  }

  /** An acknowledgement of a known position: stale ones do nothing, others move una exactly there. */
  lemma AckedPosition(e: End, r: nat)
    requires Mirror(e) && |e.sent| + e.fins < r + M && r <= |e.sent| + e.fins
    ensures Acked(e.s, (e.base + r) % M) == if r < e.una then 0 else r - e.una
  {
    Outstanding(e);
    if r < e.una { SubBehind(e.base, r, e.una); } else { SubAhead(e.base, r, e.una); }
  }

  // ----------------------------------------------------------------- events

  ghost function Tag(e: End, peer: End, g: Segment): Packet
  {
    Packet(g, e.una + Sub32(g.seqno, e.s.sndUna), |e.got| + Sub32(g.ackno, (peer.base + |e.got|) % M))
  }

  ghost function TagAll(e: End, peer: End, segs: seq<Segment>): set<Packet>
  {
    set i | 0 <= i < |segs| :: Tag(e, peer, segs[i])
  }

  /** The history after tcp_receive turned the socket into s. */
  ghost function Observe(e: End, s: Socket): End
    requires |s.rx| >= |e.s.rx|
  {
    var closing := e.s.state == ESTABLISHED && s.state == LAST_ACK;
    e.(s := s, una := e.una + Sub32(s.sndUna, e.s.sndUna), got := e.got + s.rx[|e.s.rx|..],
       fins := e.fins + (if closing then 1 else 0), finGot := e.finGot || closing)
  }

  datatype Event =
    | Send(data: seq<byte>, now: nat)
    | Timeout(now: nat)
    | CloseSocket
    | Read(n: nat)
    | Update
    | Arrive(p: Packet, now: nat)

  /**
   * What a side may do: sends fit tx, and no segment that arrives is a whole
   * 2^32 bytes older than the present end of either stream.
   */
  ghost predicate Enabled(e: End, inbox: set<Packet>, v: Event)
  {
    match v
    case Send(data, _) => |e.s.tx| + |data| <= TX_BUF_SIZE
    case CloseSocket => e.fins <= FIN_LIMIT
    case Read(n) => n <= |e.s.rx|
    case Arrive(p, _) => p in inbox && |e.got| < p.off + M && |e.sent| + e.fins < p.ackOff + M
    case _ => true
  }

  ghost function Handle(e: End, v: Event): (r: (End, seq<Segment>))
    requires v.Read? ==> v.n <= |e.s.rx|
  {
    match v
    case Send(data, now) =>
      var (s, segs) := SendData(e.s, data, now);
      (e.(s := s, sent := if e.s.state == ESTABLISHED then e.sent + data else e.sent), segs)
    case Timeout(now) => var (s, segs) := Poll(e.s, now); (e.(s := s), segs)
    case CloseSocket =>
      var (s, segs) := Close(e.s);
      (e.(s := s, fins := if e.s.state == CLOSED then e.fins else e.fins + 1), segs)
    case Read(n) => (e.(s := Drain(e.s, n), drained := e.drained + n), [])
    case Update => (e, WindowUpdate(e.s))
    case Arrive(p, now) =>
      var (s, segs) := Receive(e.s, p.g, now);
      (RxGrows(e.s, p.g, now); Observe(e, s), segs)
  }

  lemma RxGrows(s: Socket, g: Segment, now: nat)
    ensures s.rx <= Receive(s, g, now).0.rx
  {
  }

  datatype Net = Net(a: End, b: End, ab: set<Packet>, ba: set<Packet>)

  ghost function Swap(n: Net): Net { Net(n.b, n.a, n.ba, n.ab) }

  /** Side a handles v; its segments join those in flight, and nothing ever leaves the network. */
  ghost function Act(n: Net, v: Event): Net
    requires Enabled(n.a, n.ba, v)
  {
    var (e, segs) := Handle(n.a, v);
    n.(a := e, ab := n.ab + TagAll(e, n.b, segs))
  }

  ghost predicate Step(n: Net, n': Net)
  {
    || (exists v :: Enabled(n.a, n.ba, v) && n' == Act(n, v))
    || (exists v :: Enabled(n.b, n.ab, v) && n' == Swap(Act(Swap(n), v)))
  }

  ghost predicate Run(ns: seq<Net>)
  {
    |ns| > 0 && forall i :: 0 <= i < |ns| - 1 ==> Step(ns[i], ns[i + 1])
  }

  // -------------------------------------------------------------- invariant

  /** What e has received is a prefix of what p sent, in the right place and within bounds. */
  ghost predicate Received(e: End, p: End)
  {
    && e.got <= p.sent
    && e.drained <= |e.got| && e.s.rx == e.got[e.drained..] && |e.s.rx| <= RX_BUF_SIZE
    && (e.s.state == ESTABLISHED ==> e.s.ack == (p.base + |e.got|) % M && p.una <= |e.got| && !e.finGot)
    && (e.finGot ==> e.got == p.sent && p.fins > 0)
  }

  /** A packet from p to e carries p's stream at its position and acknowledges no more than p has. */
  ghost predicate Carried(p: End, e: End, k: Packet)
  {
    && !k.g.rst && !k.g.syn && HEADER + |k.g.data| <= OUTPUT_BUF
    && k.off <= |p.sent| + p.fins
    && k.g.seqno == (p.base + k.off) % M
    && (k.g.data != [] ==> k.off + |k.g.data| <= |p.sent| && k.g.data == p.sent[k.off..k.off + |k.g.data|])
    && (k.g.fin ==> k.g.data == [] && k.off >= |p.sent| && p.fins > 0)
    && k.g.ackno == (e.base + k.ackOff) % M
    && (p.s.state == ESTABLISHED ==> k.ackOff <= |p.got|)
  }

  ghost predicate Flow(p: End, e: End, flight: set<Packet>)
  {
    forall k :: k in flight ==> Carried(p, e, k)
  }

  ghost predicate Inv(n: Net)
  {
    && Mirror(n.a) && Mirror(n.b)
    && Received(n.a, n.b) && Received(n.b, n.a)
    && Flow(n.a, n.b, n.ab) && Flow(n.b, n.a, n.ba)
  }

  /** Matched ESTABLISHED sockets, nothing sent yet. */
  ghost predicate Initial(n: Net)
  {
    && Fresh(n.a, n.b) && Fresh(n.b, n.a) && n.ab == {} && n.ba == {}
  }

  ghost predicate Fresh(e: End, p: End)
  {
    && e.s.state == ESTABLISHED && e.s.peerMss <= OUR_MSS && e.s.tx == [] && e.s.rx == []
    && e.s.seqno == e.s.sndUna == e.base && e.s.ack == p.base
    && e.sent == [] && e.got == [] && e.una == e.fins == e.drained == 0 && !e.finGot
  }

  // ------------------------------------------------------------- preservation

  /** A socket's own new segments carry its stream; pos is where each one starts. */
  lemma TagPosition(e: End, peer: End, g: Segment, pos: nat)
    requires Mirror(e) && e.una <= pos <= |e.sent| + e.fins && g.seqno == (e.base + pos) % M
    ensures Tag(e, peer, g).off == pos
    ensures Tag(e, peer, g).g.ackno == (peer.base + Tag(e, peer, g).ackOff) % M
    ensures e.s.state == ESTABLISHED && g.ackno == (peer.base + |e.got|) % M ==> Tag(e, peer, g).ackOff == |e.got|
  {
    Outstanding(e);
    SubAhead(e.base, pos, e.una);
    ReAdd(g.ackno, peer.base + |e.got|);
    SubAhead(peer.base, |e.got|, |e.got|);
  }

  lemma ReAdd(x: u32, y: nat)
    ensures (y + Sub32(x, y % M)) % M == x
  {
    var d := Sub32(x, y % M);
    var k := (x - y % M) / M;
    assert d == x - y % M - M * k;
    assert y + d == x - M * (k - y / M);
    ModShift(x, k - y / M);
  }

  /** Packets already in flight stay correct when the sender's stream grows and its reception grows. */
  lemma CarriedStays(p: End, p': End, e: End, k: Packet)
    requires Carried(p, e, k)
    requires p.sent <= p'.sent && p.fins <= p'.fins && p'.base == p.base
    requires p.fins > 0 ==> p'.sent == p.sent
    requires p'.s.state == ESTABLISHED ==> p.s.state == ESTABLISHED && |p.got| <= |p'.got|
    ensures Carried(p', e, k)
  {
  }

  /** e' continues e: streams only grow, a stream that has ended stays as it is, ESTABLISHED is never re-entered. */
  ghost predicate Continues(e: End, e': End)
  {
    && e'.base == e.base && e.sent <= e'.sent && e.fins <= e'.fins && e.una <= e'.una
    && (e.fins > 0 ==> e'.sent == e.sent)
    && e.got <= e'.got
    && (e'.s.state == ESTABLISHED ==> e.s.state == ESTABLISHED)
  }

  ghost predicate Good(e: End, peer: End, segs: seq<Segment>)
  {
    forall i :: 0 <= i < |segs| ==> Carried(e, peer, Tag(e, peer, segs[i]))
  }

  lemma Preserve(n: Net, e: End, segs: seq<Segment>)
    requires Inv(n) && Continues(n.a, e) && Mirror(e) && Received(e, n.b) && Good(e, n.b, segs)
    requires n.b.s.state == ESTABLISHED ==> e.una <= |n.b.got|
    ensures Inv(n.(a := e, ab := n.ab + TagAll(e, n.b, segs)))
  {
    hide Mirror;
    forall k | k in n.ab ensures Carried(e, n.b, k) { CarriedStays(n.a, e, n.b, k); }
    assert Flow(e, n.b, n.ab + TagAll(e, n.b, segs));
    assert Flow(n.b, e, n.ba);
  }

  /** A segment without data at the end of the stream. */
  lemma PureGood(e: End, peer: End, g: Segment, pos: nat)
    requires Mirror(e) && g.data == [] && !g.rst && !g.syn
    requires e.una <= pos <= |e.sent| + e.fins && g.seqno == (e.base + pos) % M
    requires g.fin ==> pos >= |e.sent| && e.fins > 0
    requires e.s.state == ESTABLISHED ==> g.ackno == (peer.base + |e.got|) % M
    ensures Carried(e, peer, Tag(e, peer, g))
  {
    TagPosition(e, peer, g, pos);
  }

  /** A segment that carries the stream from pos on. */
  lemma DataGood(e: End, peer: End, g: Segment, pos: nat)
    requires Mirror(e) && !g.rst && !g.syn && !g.fin && HEADER + |g.data| <= OUTPUT_BUF
    requires e.una <= pos && pos + |g.data| <= |e.sent| && g.data == e.sent[pos..pos + |g.data|]
    requires g.seqno == (e.base + pos) % M && g.ackno == (peer.base + |e.got|) % M
    ensures Carried(e, peer, Tag(e, peer, g))
  {
    TagPosition(e, peer, g, pos);
  }

  lemma SendMirror(e: End, data: seq<byte>, now: nat)
    requires Mirror(e) && e.s.state == ESTABLISHED && data != [] && |e.s.tx| + |data| <= TX_BUF_SIZE
    ensures Mirror(Handle(e, Send(data, now)).0)
  {
    AddMod(e.base, |e.sent|, |data|);
    assert data[..|data|] == data;
    assert e.sent[e.una..] + data == (e.sent + data)[e.una..];
  }

  lemma SendSegments(e: End, e': End, peer: End, s1: Socket, data: seq<byte>, mss: nat)
    requires Mirror(e) && Mirror(e') && e.s.state == ESTABLISHED && 0 < mss
    requires e'.sent == e.sent + data && e'.una == e.una && e'.base == e.base && e'.got == e.got
    requires s1.ack == (peer.base + |e.got|) % M
    ensures Good(e', peer, Chunks(s1, e.s.seqno, data, 0, mss))
  {
    hide Chunks, Carried, Tag;
    var segs := Chunks(s1, e.s.seqno, data, 0, mss);
    forall i | 0 <= i < |segs| ensures Carried(e', peer, Tag(e', peer, segs[i])) {
      var g := segs[i];
      var k := ChunksCarry(s1, e.s.seqno, data, 0, mss, i);
      AddMod(e.base, |e.sent|, k);
      SliceConcat(e.sent, data, k, |g.data|);
      DataGood(e', peer, g, |e.sent| + k);
    }
  }

  /** Sending keeps the mirror, and every segment carries the stream at its own position. */
  lemma SendGood(n: Net, data: seq<byte>, now: nat)
    requires Inv(n) && Enabled(n.a, n.ba, Send(data, now))
    ensures Inv(Act(n, Send(data, now)))
  {
    hide Chunks, Carried, Tag;
    var e := n.a;
    var (e', segs) := Handle(e, Send(data, now));
    if data == [] || e.s.state != ESTABLISHED {
      assert e.sent + [] == e.sent;
    } else {
      SendMirror(e, data, now);
      SendSegments(e, e', n.b, e.s.(tx := e.s.tx + data[..|data|]), data, SendMss(e.s));
    }
    Preserve(n, e', segs);
  }

  lemma SliceConcat<T>(a: seq<T>, b: seq<T>, k: nat, n: nat)
    requires k + n <= |b|
    ensures (a + b)[|a| + k..|a| + k + n] == b[k..k + n]
  {
  }

  lemma SliceDrop<T>(a: seq<T>, lo: nat, k: nat, n: nat)
    requires lo + k + n <= |a|
    ensures a[lo..][k..k + n] == a[lo + k..lo + k + n]
  {
  }

  /** A retransmission carries the bytes that were first sent at its sequence numbers. */
  lemma RetransmitSegments(e: End, peer: End, s1: Socket, mss: nat)
    requires Mirror(e) && e.s.state == ESTABLISHED && 0 < mss
    requires s1.ack == (peer.base + |e.got|) % M
    ensures Good(e, peer, Chunks(s1, e.s.sndUna, e.s.tx, 0, mss))
  {
    hide Chunks, Carried, Tag, FreeWindow;
    assert e.una <= |e.sent|;
    var segs := Chunks(s1, e.s.sndUna, e.s.tx, 0, mss);
    forall i | 0 <= i < |segs| ensures Carried(e, peer, Tag(e, peer, segs[i])) {
      var g := segs[i];
      var k := ChunksCarry(s1, e.s.sndUna, e.s.tx, 0, mss, i);
      AddMod(e.base, e.una, k);
      SliceDrop(e.sent, e.una, k, |g.data|);
      DataGood(e, peer, g, e.una + k);
    }
  }

  lemma TimeoutGood(n: Net, now: nat)
    requires Inv(n)
    ensures Inv(Act(n, Timeout(now)))
  {
    hide Chunks, Carried, Pow2;
    var e := n.a;
    var (e', segs) := Handle(e, Timeout(now));
    if segs != [] {
      RetransmitSegments(e', n.b, e'.s, if e.s.peerMss != 0 then e.s.peerMss else DEFAULT_MSS);
    }
    Preserve(n, e', segs);
  }

  lemma CloseGood(n: Net)
    requires Inv(n) && Enabled(n.a, n.ba, CloseSocket)
    ensures Inv(Act(n, CloseSocket))
  {
    var e := n.a;
    var (e', segs) := Handle(e, CloseSocket);
    if e.s.state == CLOSED {
      Preserve(n, e', segs);
    } else {
      AddMod(e.base, |e.sent| + e.fins, 1);
      PureGood(e', n.b, segs[0], |e.sent| + e.fins);
      Preserve(n, e', segs);
    }
  }

  lemma ReadGood(n: Net, k: nat)
    requires Inv(n) && Enabled(n.a, n.ba, Read(k))
    ensures Inv(Act(n, Read(k)))
  {
    var e := n.a;
    var (e', segs) := Handle(e, Read(k));
    assert e.got[e.drained..][k..] == e.got[e.drained + k..];
    Preserve(n, e', segs);
  }

  lemma UpdateGood(n: Net)
    requires Inv(n)
    ensures Inv(Act(n, Update))
  {
    var e := n.a;
    var (e', segs) := Handle(e, Update);
    if e.s.state == ESTABLISHED { PureGood(e', n.b, segs[0], |e.sent| + e.fins); }
    Preserve(n, e', segs);
  }

  ghost function AckedSocket(s: Socket, g: Segment, now: nat): Socket
  {
    if g.ack then HandleAck(s, g.ackno, now) else s
  }

  /** The acknowledgement half of a delivery. */
  lemma AckHalf(n: Net, p: Packet, now: nat)
    requires Inv(n) && Enabled(n.a, n.ba, Arrive(p, now))
    ensures var e := n.a;
            var s := AckedSocket(e.s, p.g, now);
            var una := e.una + Sub32(s.sndUna, e.s.sndUna);
            && Mirror(e.(s := s, una := una))
            && (n.b.s.state == ESTABLISHED ==> una <= |n.b.got|)
            && s == e.s.(tx := s.tx, sndUna := s.sndUna, rtoTries := s.rtoTries, rtoDeadline := s.rtoDeadline)
  {
    hide Acked, Sub32;
    var e := n.a;
    assert Carried(n.b, e, p);
    Unmoved(e, n.b);
    if p.g.ack {
      HandleAckMirror(e, p.g.ackno, now);
      UnaMoves(e, p.g.ackno, now);
      if n.b.s.state == ESTABLISHED { AckedPosition(e, p.ackOff); }
    }
  }

  lemma UnaMoves(e: End, remoteAck: u32, now: nat)
    requires Mirror(e)
    ensures Sub32(HandleAck(e.s, remoteAck, now).sndUna, e.s.sndUna) == Acked(e.s, remoteAck)
  {
    var acked := Acked(e.s, remoteAck);
    Outstanding(e);
    SubAhead(e.base, e.una + acked, e.una);
    AddMod(e.base, e.una, acked);
  }

  lemma StreamBound(p: End)
    requires Mirror(p)
    ensures |p.sent| <= p.una + TX_BUF_SIZE && p.fins <= FIN_LIMIT + 1
  {
  }

  /** Where a data segment lies relative to what is already here. */
  lemma HavePosition(e: End, p: End, k: Packet)
    requires Mirror(p) && Received(e, p) && Carried(p, e, k) && e.s.state == ESTABLISHED
    requires k.g.data != [] && |e.got| < k.off + M
    ensures var have := Sub32(e.s.ack, k.g.seqno);
            if k.off <= |e.got| then have == |e.got| - k.off else have >= HALF
  {
    StreamBound(p);
    hide Mirror;
    if k.off <= |e.got| {
      SubAhead(p.base, |e.got|, k.off);
    } else {
      SubBehind(p.base, |e.got|, k.off);
    }
  }

  /** The data half of a delivery to an ESTABLISHED socket extends the received prefix, or nothing. */
  lemma DataHalf(e: End, p: End, k: Packet, s1: Socket)
    requires Mirror(p) && Received(e, p) && Carried(p, e, k) && e.s.state == ESTABLISHED
    requires |e.got| < k.off + M
    requires s1.state == ESTABLISHED && s1.ack == e.s.ack && s1.rx == e.s.rx
    ensures var c := ConsumeData(s1, k.g);
            s1.rx <= c.s.rx && Received(e.(s := c.s, got := e.got + c.s.rx[|s1.rx|..]), p)
  {
    hide Mirror;
    var g := k.g;
    assert s1.rx[|s1.rx|..] == [] && e.got + [] == e.got;
    if g.data != [] {
      HavePosition(e, p, k);
      var have := Sub32(e.s.ack, g.seqno);
      if k.off <= |e.got| && have < |g.data| && |s1.rx| + |g.data| - have <= RX_BUF_SIZE {
        Append(e, p, k, s1, g.data[have..]);
      }
    }
  }

  lemma Append(e: End, p: End, k: Packet, s1: Socket, novel: seq<byte>)
    requires Received(e, p) && Carried(p, e, k) && e.s.state == ESTABLISHED
    requires s1.state == ESTABLISHED && s1.ack == e.s.ack && s1.rx == e.s.rx
    requires k.off <= |e.got| < k.off + |k.g.data| && novel == k.g.data[|e.got| - k.off..]
    requires |s1.rx| + |novel| <= RX_BUF_SIZE
    ensures Received(e.(s := s1.(rx := s1.rx + novel, ack := Add32(s1.ack, |novel|)), got := e.got + novel), p)
    ensures (s1.rx + novel)[|s1.rx|..] == novel
  {
    PrefixGrows(p.sent, e.got, k.off, k.g.data);
    AddMod(p.base, |e.got|, |novel|);
    AppendDrop(e.got, novel, e.drained);
  }

  lemma AppendDrop<T>(a: seq<T>, b: seq<T>, k: nat)
    requires k <= |a|
    ensures (a + b)[k..] == a[k..] + b && (a[k..] + b)[|a| - k..] == b
  {
  }

  /** What ConsumeData leaves alone and answers. */
  lemma ConsumeFrame(s1: Socket, g: Segment)
    requires g.fin ==> g.data == []
    ensures var c := ConsumeData(s1, g);
            && c.s == s1.(rx := c.s.rx, ack := c.s.ack) && (c.segs == [] || (c.segs == Ack(s1) && c.s == s1))
            && (c.took ==> c.segs == [])
            && (g.fin ==> c.s == s1 && c.segs == [] && c.seqno == g.seqno && c.len == 0)
  {
  }

  lemma PrefixGrows<T>(all: seq<T>, got: seq<T>, off: nat, data: seq<T>)
    requires got <= all && off <= |got| < off + |data| <= |all| && data == all[off..off + |data|]
    ensures got + data[|got| - off..] == all[..off + |data|]
  {
  }

  /** A FIN in order means that every byte of the stream is here. */
  lemma FinInOrder(e: End, p: End, k: Packet)
    requires Mirror(p) && Received(e, p) && Carried(p, e, k) && e.s.state == ESTABLISHED && k.g.fin
    requires Add32(k.g.seqno, 0) == e.s.ack
    ensures e.got == p.sent && p.fins > 0
  {
    hide Mirror;
    StreamBound(p);
    assert |e.got| <= k.off <= |e.got| + TX_BUF_SIZE + FIN_LIMIT + 1;
    SamePosition(p.base, k.off, |e.got|);
  }

  lemma ArriveEstablished(n: Net, p: Packet, now: nat)
    requires Inv(n) && Enabled(n.a, n.ba, Arrive(p, now)) && n.a.s.state == ESTABLISHED
    ensures Inv(Act(n, Arrive(p, now)))
  {
    hide Mirror, Received, Tag, TagAll, ConsumeData, HandleAck, Sub32;
    var e, peer, g := n.a, n.b, p.g;
    assert Carried(peer, e, p);
    var s1 := AckedSocket(e.s, g, now);
    var e1 := e.(s := s1, una := e.una + Sub32(s1.sndUna, e.s.sndUna));
    AckHalf(n, p, now);
    DataHalf(e, peer, p, s1);
    ConsumeFrame(s1, g);
    var c := ConsumeData(s1, g);
    var (s', segs) := Receive(e.s, g, now);
    if g.fin && Add32(c.seqno, c.len) == c.s.ack {
      FinInOrder(e, peer, p);
      assert e.got + s'.rx[|e.s.rx|..] == e.got;
      MirrorEstablished(e);
      ConsumeFin(n, e1, Observe(e, s'), segs);
    } else {
      var e2 := e1.(s := c.s, got := e.got + c.s.rx[|s1.rx|..]);
      SameSender(e1, e2);
      SameReceiver(e.(s := c.s, got := e2.got), e2, peer);
      AckSegments(e2, peer, segs);
      Preserve(n, e2, segs);
    }
  }

  lemma MirrorEstablished(e: End)
    requires Mirror(e) && e.s.state == ESTABLISHED
    ensures e.fins == 0
  {
  }

  lemma SameSender(e: End, e': End)
    requires Mirror(e) && e' == e.(s := e.s.(rx := e'.s.rx, ack := e'.s.ack), got := e'.got)
    ensures Mirror(e')
  {
  }

  lemma SameReceiver(e: End, e': End, p: End)
    requires Received(e, p) && e' == e.(s := e'.s, una := e'.una)
    requires e'.s.state == e.s.state && e'.s.ack == e.s.ack && e'.s.rx == e.s.rx
    ensures Received(e', p)
  {
  }

  /** The acknowledgements an ESTABLISHED socket answers with. */
  lemma AckSegments(e: End, peer: End, segs: seq<Segment>)
    requires Mirror(e) && Received(e, peer) && e.s.state == ESTABLISHED
    requires forall i :: 0 <= i < |segs| ==> segs[i] == Plain(e.s, e.s.seqno, false, false, [])
    ensures Good(e, peer, segs)
  {
    forall i | 0 <= i < |segs| ensures Carried(e, peer, Tag(e, peer, segs[i])) {
      PureGood(e, peer, segs[i], |e.sent| + e.fins);
    }
  }

  /** An in-order FIN: acknowledge it, send our own FIN, move to LAST_ACK. */
  lemma ConsumeFin(n: Net, e1: End, e': End, segs: seq<Segment>)
    requires Inv(n) && n.a.s.state == ESTABLISHED && Mirror(e1)
    requires e1 == n.a.(s := e1.s, una := e1.una) && e1.s.state == ESTABLISHED && n.a.una <= e1.una
    requires e1.s.rx == n.a.s.rx && n.a.got == n.b.sent && n.b.fins > 0
    requires n.b.s.state == ESTABLISHED ==> e1.una <= |n.b.got|
    requires var s2 := e1.s.(ack := Add32(e1.s.ack, 1));
             && e' == e1.(s := s2.(seqno := Add32(s2.seqno, 1), state := LAST_ACK), fins := e1.fins + 1, finGot := true)
             && segs == Ack(s2) + Output(s2, s2.seqno, true, false, [])
    ensures Inv(n.(a := e', ab := n.ab + TagAll(e', n.b, segs)))
  {
    AddMod(e1.base, |e1.sent|, 1);
    assert Mirror(e');
    PureGood(e', n.b, segs[0], |e1.sent|);
    PureGood(e', n.b, segs[1], |e1.sent|);
    Preserve(n, e', segs);
  }

  /** Outside ESTABLISHED nothing is appended to rx any more. */
  lemma ArriveOther(n: Net, p: Packet, now: nat)
    requires Inv(n) && Enabled(n.a, n.ba, Arrive(p, now)) && n.a.s.state != ESTABLISHED
    ensures Inv(Act(n, Arrive(p, now)))
  {
    hide Tag, TagAll, HandleAck, Sub32, Mirror, Received;
    var e, peer, g := n.a, n.b, p.g;
    assert Carried(peer, e, p);
    AckHalf(n, p, now);
    Unmoved(e, peer);
    var s1 := if e.s.state == FIN_WAIT_1 then AckedSocket(e.s, g, now) else e.s;
    var (s', segs) := Receive(e.s, g, now);
    var e' := Observe(e, s');
    assert e.got + s'.rx[|e.s.rx|..] == e.got;
    OtherEnd(e, peer, e.(s := s1, una := e'.una), e', segs);
    Preserve(n, e', segs);
  }

  lemma Unmoved(e: End, peer: End)
    requires Mirror(e) && Received(peer, e)
    ensures Sub32(e.s.sndUna, e.s.sndUna) == 0 && e.s.state != SYN_SENT
    ensures peer.s.state == ESTABLISHED ==> e.una <= |peer.got|
  {
  }

  /** Leaving the states of a closing socket keeps its history. */
  lemma OtherEnd(e: End, peer: End, e1: End, e': End, segs: seq<Segment>)
    requires Mirror(e1) && Received(e, peer) && e.s.state != ESTABLISHED && e1 == e.(s := e1.s, una := e1.una)
    requires e' == e1.(s := e'.s) && e'.s.state != ESTABLISHED && e'.s.state != SYN_SENT
    requires e'.s == e1.s.(state := e'.s.state, ack := e'.s.ack, rtoDeadline := e'.s.rtoDeadline)
    requires e1.s.rx == e.s.rx
    requires forall i :: 0 <= i < |segs| ==>
               !segs[i].fin && segs[i].data == [] && !segs[i].rst && !segs[i].syn && segs[i].seqno == e'.s.seqno
    ensures Mirror(e') && Received(e', peer) && Good(e', peer, segs)
  {
    hide Tag;
    forall i | 0 <= i < |segs| ensures Carried(e', peer, Tag(e', peer, segs[i])) {
      PureGood(e', peer, segs[i], |e.sent| + e.fins);
    }
  }

  lemma ActPreserves(n: Net, v: Event)
    requires Inv(n) && Enabled(n.a, n.ba, v)
    ensures Inv(Act(n, v))
  {
    hide Inv, Act;
    match v
    case Send(data, now) => SendGood(n, data, now);
    case Timeout(now) => TimeoutGood(n, now);
    case CloseSocket => CloseGood(n);
    case Read(k) => ReadGood(n, k);
    case Update => UpdateGood(n);
    case Arrive(p, now) =>
      if n.a.s.state == ESTABLISHED { ArriveEstablished(n, p, now); } else { ArriveOther(n, p, now); }
  }

  lemma InvSymmetric(n: Net)
    ensures Inv(n) <==> Inv(Swap(n))
  {
    hide Mirror, Received, Carried;
  }

  lemma StepPreserves(n: Net, n': Net)
    requires Inv(n) && Step(n, n')
    ensures Inv(n')
  {
    hide Inv, Act, Enabled;
    if v :| Enabled(n.a, n.ba, v) && n' == Act(n, v) {
      ActPreserves(n, v);
    } else {
      var v :| Enabled(n.b, n.ab, v) && n' == Swap(Act(Swap(n), v));
      InvSymmetric(n);
      ActPreserves(Swap(n), v);
      InvSymmetric(Act(Swap(n), v));
    }
  }

  lemma {:induction false} RunInvariant(ns: seq<Net>, i: nat)
    requires Run(ns) && Initial(ns[0]) && i < |ns|
    ensures Inv(ns[i])
  {
    hide Step;
    if i == 0 {
      InitialInv(ns[0]);
    } else {
      RunInvariant(ns, i - 1);
      StepPreserves(ns[i - 1], ns[i]);
    }
  }

  lemma InitialInv(n: Net)
    requires Initial(n)
    ensures Inv(n)
  {
    hide Mirror, Received, Carried, Fresh;
    FreshEnd(n.a, n.b);
    FreshEnd(n.b, n.a);
  }

  lemma FreshEnd(e: End, p: End)
    requires Fresh(e, p) && Fresh(p, e)
    ensures Mirror(e) && Received(e, p)
  {
  }

  /**
   * What e has appended to rx, bytes already read included, is a prefix of what p
   * was given to send; while e is ESTABLISHED its ack counts that prefix mod 2^32;
   * rx never exceeds its buffer; a consumed FIN means that the whole stream is here.
   */
  ghost predicate Delivered(p: End, e: End)
  {
    && e.got <= p.sent
    && e.drained + |e.s.rx| == |e.got| && e.s.rx == e.got[e.drained..] && |e.s.rx| <= RX_BUF_SIZE
    && (e.s.state == ESTABLISHED ==> e.s.ack == (p.base + |e.got|) % M)
    && (e.finGot ==> e.got == p.sent && p.fins > 0)
  }

  /** End to end over every run, in both directions. */
  lemma EndToEnd(ns: seq<Net>, i: nat)
    requires Run(ns) && Initial(ns[0]) && i < |ns|
    ensures Delivered(ns[i].a, ns[i].b) && Delivered(ns[i].b, ns[i].a)
  {
    RunInvariant(ns, i);
  }

  /**
   * tx is the unacknowledged rest of the stream, and the counters are its two ends
   * mod 2^32; the timer runs as long as there is such a rest.
   */
  ghost predicate Mirrored(e: End)
  {
    && e.una <= |e.sent| + e.fins
    && e.s.tx == e.sent[Min(e.una, |e.sent|)..]
    && e.s.sndUna == (e.base + e.una) % M
    && e.s.seqno == Add32(e.s.sndUna, |e.sent| + e.fins - e.una)
    && (e.s.state == ESTABLISHED ==> e.s.seqno == Add32(e.s.sndUna, |e.s.tx|))
    && (e.s.state == ESTABLISHED && e.s.tx != [] ==> e.s.rtoDeadline > 0)
  }

  /** The same run theorem for both senders. */
  lemma SenderMirror(ns: seq<Net>, i: nat)
    requires Run(ns) && Initial(ns[0]) && i < |ns|
    ensures Mirrored(ns[i].a) && Mirrored(ns[i].b)
  {
    hide Mirror, Mirrored;
    RunInvariant(ns, i);
    MirrorCounters(ns[i].a);
    MirrorCounters(ns[i].b);
  }

  lemma MirrorCounters(e: End)
    requires Mirror(e)
    ensures Mirrored(e)
  {
    AddMod(e.base, e.una, |e.sent| + e.fins - e.una);
  }

  /** The packet carries the stream of p at its sequence number. */
  ghost predicate Truthful(p: End, k: Packet)
  {
    k.g.data != [] ==>
      && k.off + |k.g.data| <= |p.sent|
      && k.g.seqno == (p.base + k.off) % M && k.g.data == p.sent[k.off..k.off + |k.g.data|]
  }

  /**
   * Every segment ever put on the wire by either side, retransmissions included,
   * carries the stream at its sequence number.
   */
  lemma EverySegmentTrue(ns: seq<Net>, i: nat, k: Packet)
    requires Run(ns) && Initial(ns[0]) && i < |ns|
    ensures k in ns[i].ab ==> Truthful(ns[i].a, k)
    ensures k in ns[i].ba ==> Truthful(ns[i].b, k)
  {
    RunInvariant(ns, i);
    if k in ns[i].ab { assert Carried(ns[i].a, ns[i].b, k); }
    if k in ns[i].ba { assert Carried(ns[i].b, ns[i].a, k); }
  }

  // -------------------------------------------------------- exact conditions

  /** A send keeps the mirror exactly when the data fits the free part of tx. */
  lemma SendKeepsMirrorIffFits(e: End, data: seq<byte>, now: nat)
    requires Mirror(e) && e.s.state == ESTABLISHED && data != []
    ensures Mirror(Handle(e, Send(data, now)).0) <==> |e.s.tx| + |data| <= TX_BUF_SIZE
  {
    if |e.s.tx| + |data| <= TX_BUF_SIZE {
      SendMirror(e, data, now);
    } else {
      var e' := Handle(e, Send(data, now)).0;
      assert |e'.s.tx| == TX_BUF_SIZE;
      assert |e'.sent| - e'.una > TX_BUF_SIZE;
    }
  }

  /** After the SYN-ACK the retransmission buffer is aligned exactly when it acknowledges iss + 1. */
  lemma HandshakeAlignedIff(s: Socket, g: Segment, now: nat)
    requires s.state == SYN_SENT && s.sndUna == s.iss && s.seqno == Add32(s.iss, 1) && s.tx == []
    requires g.syn && g.ack && !g.rst
    ensures var t := Receive(s, g, now).0;
            && t.state == ESTABLISHED && t.ack == Add32(g.seqno, 1) && t.seqno == s.seqno
            && (t.sndUna == t.seqno <==> g.ackno == Add32(s.iss, 1))
  {
    SubAhead(s.iss, 1, 0);
  }

  /** The age limit is sharp: a segment exactly 2^32 bytes old is taken for the next one. */
  lemma WrappedDuplicateAccepted(e: End, p: End, k: Packet)
    requires Received(e, p) && Carried(p, e, k) && e.s.state == ESTABLISHED
    requires k.g.data != [] && |e.got| == k.off + M && |e.s.rx| + |k.g.data| <= RX_BUF_SIZE
    ensures ConsumeData(e.s, k.g).s.rx == e.s.rx + k.g.data
  {
    ModShift(p.base + k.off, -1);
    SubAhead(p.base, k.off, k.off);
    assert k.g.data[0..] == k.g.data;
  }

  /** The age limit of acknowledgements is sharp too: one exactly 2^32 old is taken to acknowledge everything. */
  lemma WrappedAckAccepted(e: End, ackOff: nat, now: nat)
    requires Mirror(e) && |e.sent| + e.fins == ackOff + M && e.una < |e.sent| + e.fins
    ensures ackOff < e.una
    ensures var s := HandleAck(e.s, (e.base + ackOff) % M, now); s.tx == [] && s.sndUna == e.s.seqno
  {
    hide Sub32;
    Outstanding(e);
    ModShift(e.base + |e.sent| + e.fins, 1);
    AddMod(e.base, e.una, |e.sent| + e.fins - e.una);
    AckOfAll(e, now);
  }

  /** An acknowledgement of seq itself empties tx. */
  lemma AckOfAll(e: End, now: nat)
    requires Mirror(e) && e.una < |e.sent| + e.fins
    ensures var s := HandleAck(e.s, e.s.seqno, now); s.tx == [] && s.sndUna == e.s.seqno
  {
    hide Sub32;
    Outstanding(e);
    AddMod(e.base, e.una, |e.sent| + e.fins - e.una);
  }

  /**
   * What an oversized send breaks: once an acknowledgement passes the bytes that
   * were kept, the next data is kept as if it followed there, and a timeout sends
   * it with the sequence number of the bytes that were lost.
   */
  lemma OversizedSendBreaks(e: End, data: seq<byte>, n: nat, later: seq<byte>, t: nat)
    requires Mirror(e) && e.s.state == ESTABLISHED && data != []
    requires TX_BUF_SIZE < n < |e.s.tx| + |data| < M && 0 < |later| <= TX_BUF_SIZE
    ensures var s1 := SendData(e.s, data, t).0;
            var s2 := HandleAck(s1, Add32(s1.sndUna, n), t);
            var s3 := SendData(s2, later, t).0;
            var segs := Poll(s3, t + RTO_BASE_TICKS).1;
            var sent := e.sent + data + later;
            && segs != [] && segs[0].seqno == (e.base + e.una + n) % M && e.una + n < |e.sent + data|
            && segs[0].data != [] && segs[0].data[0] == later[0]
            && (later[0] != sent[e.una + n] ==> !Truthful(e.(sent := sent), Packet(segs[0], e.una + n, 0)))
  {
    hide Chunks;
    var s1 := SendData(e.s, data, t).0;
    OverflowedSend(e, data, t);
    var s2 := HandleAck(s1, Add32(s1.sndUna, n), t);
    SubAhead(e.base, e.una + n, e.una);
    AddMod(e.base, e.una, n);
    assert s2 == s1.(tx := [], sndUna := (e.base + e.una + n) % M, rtoTries := 0, rtoDeadline := 0);
    var s3 := SendData(s2, later, t).0;
    assert later[..|later|] == later && [] + later == later;
    assert s3.tx == later && s3.rtoDeadline == t + RTO_BASE_TICKS && s3.sndUna == s2.sndUna;
    var mss := if s3.peerMss != 0 then s3.peerMss else DEFAULT_MSS;
    var s4 := s3.(rtoTries := 1, rtoDeadline := t + RTO_BASE_TICKS + RTO_BASE_TICKS * Pow2(1));
    assert Poll(s3, t + RTO_BASE_TICKS).1 == Chunks(s4, s4.sndUna, later, 0, mss);
    FirstChunk(s4, s4.sndUna, later, mss);
  }

  lemma OverflowedSend(e: End, data: seq<byte>, t: nat)
    requires Mirror(e) && e.s.state == ESTABLISHED && data != [] && TX_BUF_SIZE < |e.s.tx| + |data| < M
    ensures var s1 := SendData(e.s, data, t).0;
            && |s1.tx| == TX_BUF_SIZE && s1.sndUna == e.s.sndUna && s1.peerMss == e.s.peerMss && s1.state == ESTABLISHED
            && s1.seqno == (e.base + |e.sent| + |data|) % M && Sub32(s1.seqno, s1.sndUna) == |e.s.tx| + |data|
  {
    hide Chunks;
    AddMod(e.base, |e.sent|, |data|);
    SubAhead(e.base, |e.sent| + |data|, e.una);
  }

  lemma FirstChunk(s: Socket, first: u32, data: seq<byte>, mss: nat)
    requires 0 < mss <= OUR_MSS && data != []
    ensures var segs := Chunks(s, first, data, 0, mss);
            segs != [] && segs[0].seqno == first && segs[0].data != [] && segs[0].data[0] == data[0]
  {
  }

  /**
   * The FIN_WAIT arms take a FIN wherever it lies: ack is right exactly when its
   * segment ends where the received bytes do.
   */
  lemma FinWaitAckIff(e: End, p: End, k: Packet, now: nat)
    requires Mirror(e) && Carried(p, e, k) && (e.s.state == FIN_WAIT_1 || e.s.state == FIN_WAIT_2) && k.g.fin
    requires |e.got| < k.off + M && k.off < |e.got| + M
    ensures Receive(e.s, k.g, now).0.ack == (p.base + |e.got| + 1) % M <==> k.off + |k.g.data| == |e.got|
  {
    hide Mirror, HandleAck, Sub32;
    AddMod(p.base, k.off, 1);
    AddMod((p.base + k.off) % M, 0, 1);
    SameEnd(p.base, k.off + 1, |e.got| + 1);
  }

  lemma SameEnd(b: nat, x: nat, y: nat)
    requires x < y + M && y < x + M
    ensures (b + x) % M == (b + y) % M <==> x == y
  {
    if (b + x) % M == (b + y) % M {
      if x >= y { SamePosition(b, x, y); } else { SamePosition(b, y, x); }
    }
  }
}
