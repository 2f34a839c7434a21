/**
 * The socket of kernel/net/tcp.c as an object updated in place: its fields, the
 * segmentation and retransmission loops, and the frames it hands to ipv4_send.
 * Each method is proved to be the function of module Tcp with the same name.
 */
module TcpSocket {
  import opened Basics
  import opened Bits
  import opened Tcp

  class TcpSocket {
    var state: State
    var iss: u32
    var seqno: u32
    var sndUna: u32
    var ack: u32
    var peerMss: nat
    var rx: seq<byte>
    var tx: seq<byte>
    var rtoDeadline: nat
    var rtoTries: nat
    /** Everything passed to ipv4_send so far. */
    var wire: seq<Segment>

    ghost function Value(): Socket
      reads this
    {
      Socket(state, iss, seqno, sndUna, ack, peerMss, rx, tx, rtoDeadline, rtoTries)
    }

    /** tcp_connect: a SYN carrying iss, which consumes one sequence number. */
    constructor (iss: u32, now: nat)
      ensures Value() == Socket(SYN_SENT, iss, Add32(iss, 1), iss, 0, 0, [], [], now + RTO_BASE_TICKS, 0)
      ensures wire == [Syn(Value())]
    {
      state, this.iss, seqno, sndUna, ack, peerMss := SYN_SENT, iss, Add32(iss, 1), iss, 0, 0;
      rx, tx, rtoDeadline, rtoTries := [], [], now + RTO_BASE_TICKS, 0;
      wire := [Segment(iss, 0, false, true, false, false, false, RX_BUF_SIZE, Some(OUR_MSS), [])];
    }

    method FreeWindowNow() returns (w: nat)
      ensures w == FreeWindow(Value())
    {
      w := if |rx| >= RX_BUF_SIZE then 0 else RX_BUF_SIZE - |rx|;
      w := Min(w, 0xFFFF);
    }

    /** tcp_output without SYN: build the header and payload unless they exceed the buffer. */
    method Transmit(seqno: u32, fin: bool, psh: bool, data: seq<byte>)
      modifies this`wire
      ensures wire == old(wire) + Output(Value(), seqno, fin, psh, data)
    {
      if HEADER + |data| > OUTPUT_BUF { return; }
      var w := FreeWindowNow();
      wire := wire + [Segment(seqno, ack, fin, false, false, psh, true, w, None, data)];
    }

    method HandleAckNow(remoteAck: u32, now: nat)
      modifies this`tx, this`sndUna, this`rtoTries, this`rtoDeadline
      ensures Value() == HandleAck(old(Value()), remoteAck, now)
    {
      var outstanding := Sub32(seqno, sndUna);
      var acked := Sub32(remoteAck, sndUna);
      if acked == 0 || acked > outstanding { return; }
      var fromBuf := if acked > |tx| then |tx| else acked;
      tx := tx[fromBuf..];
      sndUna := Add32(sndUna, acked);
      rtoTries := 0;
      rtoDeadline := if tx != [] then now + RTO_BASE_TICKS else 0;
    }

    /** The segmentation loop of tcp_send_data, which advances seqno as it sends. */
    method SendChunks(data: seq<byte>, mss: nat)
      requires 0 < mss
      modifies this`seqno, this`wire
      ensures Value() == old(Value()).(seqno := Add32(old(seqno), |data|))
      ensures wire == old(wire) + Chunks(old(Value()), old(seqno), data, 0, mss)
    {
      hide Chunks, FreeWindow, Output;
      ghost var s1, first := Value(), seqno;
      ChunksEnd(s1, first, data, mss);
      var p := 0;
      while p < |data|
        invariant 0 <= p <= |data|
        invariant Value() == s1.(seqno := Add32(first, p))
        invariant old(wire) + Chunks(s1, first, data, 0, mss) == wire + Chunks(s1, first, data, p, mss)
        decreases |data| - p
      {
        var left := |data| - p;
        var chunk := if left > mss then mss else left;
        ChunksUnfold(s1, first, data, p, mss, chunk, wire);
        SameSegment(s1, Value(), seqno, false, chunk == left, data[p..p + chunk]);
        Transmit(seqno, false, chunk == left, data[p..p + chunk]);
        AddMod(first, p, chunk);
        seqno := Add32(seqno, chunk);
        p := p + chunk;
      }
    }

    method SendDataNow(data: seq<byte>, now: nat)
      requires |tx| <= TX_BUF_SIZE
      modifies this
      ensures Value() == SendData(old(Value()), data, now).0
      ensures wire == old(wire) + SendData(old(Value()), data, now).1
    {
      if data == [] || state != ESTABLISHED { return; }
      var mss := if peerMss != 0 then peerMss else DEFAULT_MSS;
      if mss > OUR_MSS { mss := OUR_MSS; }
      var space := TX_BUF_SIZE - |tx|;
      var keep := if |data| < space then |data| else space;
      tx := tx + data[..keep];
      SendChunks(data, mss);
      if rtoDeadline == 0 {
        rtoTries := 0;
        rtoDeadline := now + RTO_BASE_TICKS;
      }
    }

    /** The retransmission loop of tcp_poll: all of tx again, from sndUna on. */
    method Retransmit(mss: nat)
      requires 0 < mss
      modifies this`wire
      ensures wire == old(wire) + Chunks(Value(), sndUna, tx, 0, mss)
    {
      hide Chunks, FreeWindow, Output;
      ghost var s1 := Value();
      ChunksEnd(s1, sndUna, tx, mss);
      var off := 0;
      while off < |tx|
        invariant 0 <= off <= |tx|
        invariant old(wire) + Chunks(s1, sndUna, tx, 0, mss) == wire + Chunks(s1, sndUna, tx, off, mss)
        decreases |tx| - off
      {
        var chunk := |tx| - off;
        if chunk > mss { chunk := mss; }
        ChunksUnfold(s1, sndUna, tx, off, mss, chunk, wire);
        Transmit(Add32(sndUna, off), false, off + chunk == |tx|, tx[off..off + chunk]);
        off := off + chunk;
      }
    }

    /** tcp_poll for this socket. */
    method PollNow(now: nat)
      modifies this
      ensures Value() == Poll(old(Value()), now).0
      ensures wire == old(wire) + Poll(old(Value()), now).1
    {
      if rtoDeadline == 0 || now < rtoDeadline { return; }
      if rtoTries >= MAX_RETRIES {
        state := CLOSED;
        rtoDeadline := 0;
        return;
      }
      rtoTries := rtoTries + 1;
      rtoDeadline := now + RTO_BASE_TICKS * Pow2(rtoTries);
      if state == SYN_SENT {
        var w := FreeWindowNow();
        wire := wire + [Segment(iss, 0, false, true, false, false, false, w, Some(OUR_MSS), [])];
      } else if state == ESTABLISHED && tx != [] {
        var mss := if peerMss != 0 then peerMss else DEFAULT_MSS;
        Retransmit(mss);
      } else {
        rtoDeadline := 0;
      }
    }

    method CloseNow()
      modifies this
      ensures Value() == Close(old(Value())).0 && wire == old(wire) + Close(old(Value())).1
    {
      if state == CLOSED { return; }
      Transmit(seqno, true, false, []);
      seqno := Add32(seqno, 1);
      state := FIN_WAIT_1;
    }

    /** tcp_receive once the segment has passed the checksum and found its socket. */
    method ReceiveNow(g: Segment, now: nat)
      modifies this
      ensures Value() == Receive(old(Value()), g, now).0
      ensures wire == old(wire) + Receive(old(Value()), g, now).1
    {
      hide HandleAck, ReceiveEstablished, ReceiveFin, FreeWindow, ParseMss;
      if g.rst {
        state := CLOSED;
        rtoDeadline := 0;
        return;
      }
      match state
      case SYN_SENT =>
        if g.syn && g.ack {
          peerMss := ParseMss(peerMss, g);
          if peerMss == 0 { peerMss := DEFAULT_MSS; }
          HandleAckNow(g.ackno, now);
          ack := Add32(g.seqno, 1);
          state := ESTABLISHED;
          rtoDeadline := 0;
          Transmit(seqno, false, false, []);
        }
      case ESTABLISHED => ReceiveData(g, now);
      case LAST_ACK =>
        if g.ack && g.ackno == seqno {
          state := CLOSED;
          rtoDeadline := 0;
        }
      case FIN_WAIT_1 =>
        if g.ack {
          HandleAckNow(g.ackno, now);
          if g.ackno == seqno { state := FIN_WAIT_2; }
        }
        ReceiveFinNow(g);
      case FIN_WAIT_2 => ReceiveFinNow(g);
      case _ =>
    }

    method ReceiveFinNow(g: Segment)
      modifies this
      ensures Value() == ReceiveFin(old(Value()), g).0 && wire == old(wire) + ReceiveFin(old(Value()), g).1
    {
      if g.fin {
        ack := Add32(Add32(g.seqno, |g.data|), 1);
        Transmit(seqno, false, false, []);
        state := CLOSED;
      }
    }

    /** The ESTABLISHED arm: acknowledge, take data, consume an in-order FIN. */
    method ReceiveData(g: Segment, now: nat)
      modifies this
      ensures Value() == ReceiveEstablished(old(Value()), g, now).0
      ensures wire == old(wire) + ReceiveEstablished(old(Value()), g, now).1
    {
      hide HandleAck, ConsumeData, FreeWindow, Sub32;
      if g.ack { HandleAckNow(g.ackno, now); }
      var remoteSeq, dataLen, consumed := TakeData(g);
      if g.fin {
        if Add32(remoteSeq, dataLen) == ack {
          ack := Add32(ack, 1);
          Transmit(seqno, false, false, []);
          SameSegment(Value(), Value().(state := CLOSE_WAIT), seqno, true, false, []);
          state := CLOSE_WAIT;
          Transmit(seqno, true, false, []);
          seqno := Add32(seqno, 1);
          state := LAST_ACK;
        }
      } else if consumed {
        Transmit(seqno, false, false, []);
      }
    }

    /** Trim what is already here and append the rest if it fits; otherwise answer with a duplicate ACK. */
    method TakeData(g: Segment) returns (remoteSeq: u32, dataLen: nat, consumed: bool)
      modifies this`rx, this`ack, this`wire
      ensures var c := ConsumeData(old(Value()), g);
              Value() == c.s && wire == old(wire) + c.segs && remoteSeq == c.seqno && dataLen == c.len
                  && consumed == c.took
    {
      hide FreeWindow;
      remoteSeq, dataLen, consumed := g.seqno, |g.data|, false;
      if dataLen > 0 {
        var have := Sub32(ack, remoteSeq);
        if have < HALF && have < dataLen {
          dataLen := dataLen - have;
          remoteSeq := Add32(remoteSeq, have);
          if |rx| + dataLen <= RX_BUF_SIZE {
            rx := rx + g.data[have..];
            ack := Add32(ack, dataLen);
            consumed := true;
          } else {
            Transmit(seqno, false, false, []);
          }
        } else {
          Transmit(seqno, false, false, []);
        }
      }
    }

    /**
     * SYS_NET_RECV behind its wait: hand over up to max bytes, close the gap, and
     * reopen a window that was nearly shut. Without bytes, code is the end of file
     * unless some can still come.
     */
    method ReadNow(max: nat) returns (code: int, data: seq<byte>)
      requires |rx| <= RX_BUF_SIZE
      modifies this`rx, this`wire
      ensures |data| == Min(max, |old(rx)|) && data == old(rx)[..|data|]
      ensures code == if old(rx) == [] && state != ESTABLISHED && state != SYN_SENT then RECV_EOF else |data|
      ensures Value() == Drain(old(Value()), |data|)
      ensures wire == old(wire)
              + if |old(rx)| > 0 && RX_BUF_SIZE - |old(rx)| < LOW_WINDOW then WindowUpdate(Value()) else []
    {
      if rx == [] { return if state != ESTABLISHED && state != SYN_SENT then RECV_EOF else 0, []; }
      var copy := Min(max, |rx|);
      code, data := copy, rx[..copy];
      var choked := RX_BUF_SIZE - |rx| < LOW_WINDOW;
      rx := rx[copy..];
      if choked && state == ESTABLISHED { Transmit(seqno, false, false, []); }
    }
  }

  /** SYS_NET_RECV answers with a window update when less than this was free. */
  const LOW_WINDOW := 2048

  /** NET_RECV_EOF, -2 as a 64-bit number. */
  const RECV_EOF := -2

  /** tcp_poll: every socket of the list is polled once, and none affects another. */
  method PollAll(sockets: seq<TcpSocket>, now: nat)
    requires Distinct(sockets)
    modifies sockets
    ensures forall i :: 0 <= i < |sockets| ==> Polled(sockets[i], old(sockets[i].Value()), old(sockets[i].wire), now)
  {
    for k := 0 to |sockets|
      invariant forall i :: 0 <= i < k ==> Polled(sockets[i], old(sockets[i].Value()), old(sockets[i].wire), now)
      invariant forall i :: k <= i < |sockets| ==>
                sockets[i].Value() == old(sockets[i].Value()) && sockets[i].wire == old(sockets[i].wire)
    {
      sockets[k].PollNow(now);
    }
  }

  ghost predicate Polled(s: TcpSocket, before: Socket, wire: seq<Segment>, now: nat)
    reads s
  {
    s.Value() == Poll(before, now).0 && s.wire == wire + Poll(before, now).1
  }

  /** A segment depends on the socket only through its ack and its free window. */
  lemma SameSegment(s: Socket, t: Socket, seqno: u32, fin: bool, psh: bool, data: seq<byte>)
    requires s.ack == t.ack && s.rx == t.rx
    ensures Output(s, seqno, fin, psh, data) == Output(t, seqno, fin, psh, data)
  {
  }

  lemma ChunksEnd(s: Socket, first: u32, data: seq<byte>, mss: nat)
    requires 0 < mss
    ensures Chunks(s, first, data, |data|, mss) == []
  {
  }

  lemma ChunksUnfold(s: Socket, first: u32, data: seq<byte>, off: nat, mss: nat, n: nat, wire: seq<Segment>)
    requires 0 < mss && off < |data| && n == if |data| - off > mss then mss else |data| - off
    ensures wire + Chunks(s, first, data, off, mss) ==
            wire + Output(s, Add32(first, off), false, off + n == |data|, data[off..off + n])
            + Chunks(s, first, data, off + n, mss)
  {
    hide Output;
  }
}
