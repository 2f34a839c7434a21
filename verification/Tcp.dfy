/**
 * The TCP socket of kernel/net/tcp.c as functions from socket and event to
 * socket and transmitted segments. Sequence numbers are 32 bits and wrap.
 */
module Tcp {
  import opened Basics
  import opened Bits

  const M := 0x1_0000_0000
  const HALF := 0x8000_0000
  const RX_BUF_SIZE := 32768
  const TX_BUF_SIZE := 8192
  const DEFAULT_MSS := 536
  const OUR_MSS := 1460
  const RTO_BASE_TICKS := 30
  const MAX_RETRIES := 6
  const HEADER := 20
  const OUTPUT_BUF := 2048

  type u32 = x: nat | x < M

  function Add32(a: u32, b: nat): u32 { (a + b) % M }
  function Sub32(a: u32, b: u32): u32 { (a - b) % M }

  datatype State =
    | CLOSED | SYN_SENT | SYN_RECEIVED | ESTABLISHED | FIN_WAIT_1
    | FIN_WAIT_2 | CLOSE_WAIT | CLOSING | LAST_ACK | TIME_WAIT

  /** A segment; mss is the value of the MSS option, if there is one. */
  datatype Segment = Segment(
    seqno: u32, ackno: u32, fin: bool, syn: bool, rst: bool, psh: bool, ack: bool,
    window: nat, mss: Option<nat>, data: seq<byte>)

  datatype Socket = Socket(
    state: State, iss: u32, seqno: u32, sndUna: u32, ack: u32, peerMss: nat,
    rx: seq<byte>, tx: seq<byte>, rtoDeadline: nat, rtoTries: nat)

  function FreeWindow(s: Socket): (w: nat)
    ensures w <= 0xFFFF
    ensures |s.rx| <= RX_BUF_SIZE ==> w == RX_BUF_SIZE - |s.rx|
  {
    Min(if |s.rx| >= RX_BUF_SIZE then 0 else RX_BUF_SIZE - |s.rx|, 0xFFFF)
  }

  function Plain(s: Socket, seqno: u32, fin: bool, psh: bool, data: seq<byte>): Segment
  {
    Segment(seqno, s.ack, fin, false, false, psh, true, FreeWindow(s), None, data)
  }

  /** tcp_output: a segment that does not fit the 2048-byte buffer is silently not sent. */
  function Output(s: Socket, seqno: u32, fin: bool, psh: bool, data: seq<byte>): seq<Segment>
  {
    if HEADER + |data| > OUTPUT_BUF then [] else [Plain(s, seqno, fin, psh, data)]
  }

  function Syn(s: Socket): Segment
  {
    Segment(s.iss, 0, false, true, false, false, false, FreeWindow(s), Some(OUR_MSS), [])
  }

  /** tcp_handle_ack: drop acknowledged bytes from tx; ignore stale and bogus acknowledgements. */
  function HandleAck(s: Socket, remoteAck: u32, now: nat): Socket
  {
    var outstanding := Sub32(s.seqno, s.sndUna);
    var acked := Sub32(remoteAck, s.sndUna);
    if acked == 0 || acked > outstanding then s
    else
      var fromBuf := if acked > |s.tx| then |s.tx| else acked;
      var tx := s.tx[fromBuf..];
      s.(tx := tx, sndUna := Add32(s.sndUna, acked), rtoTries := 0,
         rtoDeadline := if tx != [] then now + RTO_BASE_TICKS else 0)
  }

  function SendMss(s: Socket): (mss: nat)
    ensures 0 < mss <= OUR_MSS
  {
    var mss := if s.peerMss != 0 then s.peerMss else DEFAULT_MSS;
    if mss > OUR_MSS then OUR_MSS else mss
  }

  /** The segments that carry data[off..], the first byte of data having number first. */
  function Chunks(s: Socket, first: u32, data: seq<byte>, off: nat, mss: nat): seq<Segment>
    requires 0 < mss && off <= |data|
    decreases |data| - off
  {
    if off == |data| then []
    else
      var n := if |data| - off > mss then mss else |data| - off;
      Output(s, Add32(first, off), false, off + n == |data|, data[off..off + n]) + Chunks(s, first, data, off + n, mss)
  }

  /** tcp_send_data: keep what fits in tx for retransmission, send everything in mss-sized segments. */
  function SendData(s: Socket, data: seq<byte>, now: nat): (Socket, seq<Segment>)
  {
    if data == [] || s.state != ESTABLISHED then (s, [])
    else
      var space := if |s.tx| <= TX_BUF_SIZE then TX_BUF_SIZE - |s.tx| else 0;
      var keep := if |data| < space then |data| else space;
      var s1 := s.(tx := s.tx + data[..keep]);
      var segs := Chunks(s1, s.seqno, data, 0, SendMss(s));
      var s2 := s1.(seqno := Add32(s.seqno, |data|));
      (if s.rtoDeadline == 0 then s2.(rtoTries := 0, rtoDeadline := now + RTO_BASE_TICKS) else s2, segs)
  }

  /** tcp_poll for one socket: give up, retransmit the SYN, or retransmit all of tx. */
  function Poll(s: Socket, now: nat): (Socket, seq<Segment>)
  {
    if s.rtoDeadline == 0 || now < s.rtoDeadline then (s, [])
    else if s.rtoTries >= MAX_RETRIES then (s.(state := CLOSED, rtoDeadline := 0), [])
    else
      var s1 := s.(rtoTries := s.rtoTries + 1, rtoDeadline := now + RTO_BASE_TICKS * Pow2(s.rtoTries + 1));
      if s.state == SYN_SENT then (s1, [Syn(s1)])
      else if s.state == ESTABLISHED && s.tx != [] then
        (s1, Chunks(s1, s.sndUna, s.tx, 0, if s.peerMss != 0 then s.peerMss else DEFAULT_MSS))
      else (s1.(rtoDeadline := 0), [])
  }

  /** tcp_close: FIN in every state but CLOSED. */
  function Close(s: Socket): (Socket, seq<Segment>)
  {
    if s.state == CLOSED then (s, [])
    else (s.(seqno := Add32(s.seqno, 1), state := FIN_WAIT_1), Output(s, s.seqno, true, false, []))
  }

  function WindowUpdate(s: Socket): seq<Segment>
  {
    if s.state == ESTABLISHED then Output(s, s.seqno, false, false, []) else []
  }

  /** SYS_NET_RECV: the reader takes the first n bytes of rx. */
  function Drain(s: Socket, n: nat): Socket
    requires n <= |s.rx|
  {
    s.(rx := s.rx[n..])
  }

  function Ack(s: Socket): seq<Segment> { Output(s, s.seqno, false, false, []) }

  /** tcp_parse_options: the peer's MSS, clamped. */
  function ParseMss(mss: nat, g: Segment): nat
  {
    match g.mss
    case None => mss
    case Some(m) => if 64 <= m <= OUR_MSS then m else OUR_MSS
  }

  /** The data part of the ESTABLISHED arm: trim what is already here, append the rest if it fits. */
  datatype Consumed = Consumed(s: Socket, segs: seq<Segment>, seqno: u32, len: nat, took: bool)

  function ConsumeData(s: Socket, g: Segment): Consumed
  {
    if g.data == [] then Consumed(s, [], g.seqno, 0, false)
    else
      var have := Sub32(s.ack, g.seqno);
      if have < HALF && have < |g.data| then
        var novel := g.data[have..];
        if |s.rx| + |novel| <= RX_BUF_SIZE then
          Consumed(s.(rx := s.rx + novel, ack := Add32(s.ack, |novel|)), [], Add32(g.seqno, have), |novel|, true)
        else Consumed(s, Ack(s), Add32(g.seqno, have), |novel|, false)
      else Consumed(s, Ack(s), g.seqno, |g.data|, false)
  }

  function ReceiveEstablished(s: Socket, g: Segment, now: nat): (Socket, seq<Segment>)
  {
    var s1 := if g.ack then HandleAck(s, g.ackno, now) else s;
    var c := ConsumeData(s1, g);
    if g.fin then
      if Add32(c.seqno, c.len) == c.s.ack then
        var s2 := c.s.(ack := Add32(c.s.ack, 1));
        (s2.(seqno := Add32(s2.seqno, 1), state := LAST_ACK), c.segs + Ack(s2) + Output(s2, s2.seqno, true, false, []))
      else (c.s, c.segs)
    else if c.took then (c.s, c.segs + Ack(c.s))
    else (c.s, c.segs)
  }

  /** The FIN part of both FIN_WAIT arms: no order check. */
  function ReceiveFin(s: Socket, g: Segment): (Socket, seq<Segment>)
  {
    if g.fin then
      var s1 := s.(ack := Add32(Add32(g.seqno, |g.data|), 1));
      (s1.(state := CLOSED), Ack(s1))
    else (s, [])
  }

  /** tcp_receive for the socket a checked segment belongs to. */
  function Receive(s: Socket, g: Segment, now: nat): (Socket, seq<Segment>)
  {
    if g.rst then (s.(state := CLOSED, rtoDeadline := 0), [])
    else
      match s.state
      case SYN_SENT =>
        if g.syn && g.ack then
          var mss := ParseMss(s.peerMss, g);
          var s1 := HandleAck(s.(peerMss := if mss != 0 then mss else DEFAULT_MSS), g.ackno, now);
          var s2 := s1.(ack := Add32(g.seqno, 1), state := ESTABLISHED, rtoDeadline := 0);
          (s2, Ack(s2))
        else (s, [])
      case ESTABLISHED => ReceiveEstablished(s, g, now)
      case LAST_ACK =>
        if g.ack && g.ackno == s.seqno then (s.(state := CLOSED, rtoDeadline := 0), []) else (s, [])
      case FIN_WAIT_1 =>
        var s1 := if g.ack then HandleAck(s, g.ackno, now) else s;
        var s2 := if g.ack && g.ackno == s1.seqno then s1.(state := FIN_WAIT_2) else s1;
        ReceiveFin(s2, g)
      case FIN_WAIT_2 => ReceiveFin(s, g)
      case _ => (s, [])
  }

  // --------------------------------------------------- modular arithmetic

  lemma AddMod(b: nat, x: nat, y: nat)
    ensures ((b + x) % M + y) % M == (b + x + y) % M
  {
  }

  /** Within 2^32 the difference of two sequence numbers is the difference of the positions. */
  lemma SubAhead(b: nat, x: nat, y: nat)
    requires y <= x < y + M
    ensures Sub32((b + x) % M, (b + y) % M) == x - y
  {
    var p, q := (b + x) / M, (b + y) / M;
    assert (b + x) % M - (b + y) % M == (x - y) - M * (p - q);
    ModShift(x - y, p - q);
  }

  /** A position that lies behind shows up as a huge difference. */
  lemma SubBehind(b: nat, x: nat, y: nat)
    requires x < y <= x + M
    ensures Sub32((b + x) % M, (b + y) % M) == M - (y - x) || y == x + M
  {
    var p, q := (b + x) / M, (b + y) / M;
    assert (b + x) % M - (b + y) % M == (M - (y - x)) - M * (p - q + 1);
    ModShift(M - (y - x), p - q + 1);
  }

  lemma ModShift(v: int, k: int)
    ensures (v - M * k) % M == v % M
  {
    var r := v % M;
    assert v == M * (v / M) + r;
    assert v - M * k == M * (v / M - k) + r;
    DivModUnique(v - M * k, M, v / M - k, r);
  }

  /** Equal sequence numbers less than 2^32 apart are the same position. */
  lemma SamePosition(b: nat, x: nat, y: nat)
    requires y <= x < y + M && (b + x) % M == (b + y) % M
    ensures x == y
  {
    SubAhead(b, x, y);
  }

  // ------------------------------------------------------- segmentation

  /** Chunks cuts data into consecutive pieces numbered from first on; k is where piece i starts. */
  lemma {:induction false} ChunksCarry(s: Socket, first: u32, data: seq<byte>, off: nat, mss: nat, i: nat)
      returns (k: nat)
    requires 0 < mss && off <= |data| && i < |Chunks(s, first, data, off, mss)|
    ensures var g := Chunks(s, first, data, off, mss)[i];
            && off <= k < |data| && k + |g.data| <= |data|
            && HEADER + |g.data| <= OUTPUT_BUF
            && g == Plain(s, Add32(first, k), false, g.psh, data[k..k + |g.data|])
    decreases |data| - off
  {
    hide FreeWindow, Add32;
    var n := if |data| - off > mss then mss else |data| - off;
    var head := Output(s, Add32(first, off), false, off + n == |data|, data[off..off + n]);
    if i < |head| {
      k := off;
    } else {
      k := ChunksCarry(s, first, data, off + n, mss, i - |head|);
    }
  }

  /** With a usable MSS nothing is lost in segmentation: the pieces concatenate to the data. */
  lemma {:induction false} ChunksComplete(s: Socket, first: u32, data: seq<byte>, off: nat, mss: nat)
    requires 0 < mss <= OUR_MSS && off <= |data|
    ensures Payload(Chunks(s, first, data, off, mss)) == data[off..]
    decreases |data| - off
  {
    if off < |data| {
      var n := if |data| - off > mss then mss else |data| - off;
      ChunksComplete(s, first, data, off + n, mss);
      assert data[off..] == data[off..off + n] + data[off + n..];
    }
  }

  function Payload(segs: seq<Segment>): seq<byte>
  {
    if segs == [] then [] else segs[0].data + Payload(segs[1..])
  }
}
