/**
 * What a socket does for its peer: every data segment is answered, a timeout
 * repeats all that is unacknowledged, and one round without loss completes the
 * stream. The run theorems say that nothing wrong is delivered; these say what is.
 */
module TcpProgress {
  import opened Basics
  import opened Bits
  import opened Tcp
  import opened TcpNetwork

  // ------------------------------------------------------------- segmentation

  /** The number of pieces of n bytes. */
  function Pieces(n: nat, mss: nat): nat
    requires 0 < mss
  {
    (n + mss - 1) / mss
  }

  /** Where piece i starts, and where it ends: it is full unless it is the last. */
  function Start(mss: nat, i: nat): nat { i * mss }

  function Stop(n: nat, mss: nat, i: nat): nat { Min(Start(mss, i + 1), n) }

  lemma {:induction false} PieceCount(s: Socket, first: u32, data: seq<byte>, off: nat, mss: nat)
    requires 0 < mss <= OUR_MSS && off <= |data|
    ensures |Chunks(s, first, data, off, mss)| == Pieces(|data| - off, mss)
    decreases |data| - off
  {
    hide FreeWindow, Add32, Plain, Pieces;
    NoPieces(mss);
    if off < |data| {
      var n := if |data| - off > mss then mss else |data| - off;
      PiecesStep(|data| - off, mss);
      PieceCount(s, first, data, off + n, mss);
    }
  }

  lemma {:induction false} PieceAt(s: Socket, first: u32, data: seq<byte>, off: nat, mss: nat, i: nat)
    requires 0 < mss <= OUR_MSS && off <= |data| && i < |Chunks(s, first, data, off, mss)|
    ensures var lo, hi := off + Start(mss, i), off + Stop(|data| - off, mss, i);
            && lo < hi <= |data|
            && Chunks(s, first, data, off, mss)[i] == Plain(s, Add32(first, lo), false, hi == |data|, data[lo..hi])
    decreases |data| - off
  {
    hide FreeWindow, Add32, Plain, Start;
    var n := if |data| - off > mss then mss else |data| - off;
    StartStep(mss, i);
    if i > 0 { PieceAt(s, first, data, off + n, mss, i - 1); }
  }

  lemma StartStep(mss: nat, i: nat)
    ensures Start(mss, 0) == 0 && Start(mss, i + 1) == Start(mss, i) + mss
            && (i > 0 ==> Start(mss, i) == Start(mss, i - 1) + mss)
  {
  }

  lemma NoPieces(mss: nat)
    requires 0 < mss
    ensures Pieces(0, mss) == 0
  {
  }

  lemma PiecesStep(n: nat, mss: nat)
    requires 0 < mss && 0 < n
    ensures n > mss ==> Pieces(n, mss) == 1 + Pieces(n - mss, mss)
    ensures n <= mss ==> Pieces(n, mss) == 1
  {
    if n > mss {
      DivModUnique(n + mss - 1, mss, 1 + (n - 1) / mss, (n - 1) % mss);
    } else {
      DivModUnique(n + mss - 1, mss, 1, n - 1);
    }
  }

  /** g is the piece data[lo..hi] of a stream in which data starts at number first. */
  ghost predicate IsPiece(g: Segment, first: u32, ack: u32, data: seq<byte>, lo: nat, hi: nat)
  {
    && lo < hi <= |data| && g.seqno == Add32(first, lo) && g.data == data[lo..hi] && g.ackno == ack
    && g.ack && !g.fin && !g.syn && !g.rst && (g.psh <==> hi == |data|)
  }

  /** What tcp_send_data transmits: the data in full pieces but the last, numbered from the end of the stream. */
  lemma SendTransmits(e: End, data: seq<byte>, now: nat, i: nat)
    requires Mirror(e) && e.s.state == ESTABLISHED && i < Pieces(|data|, SendMss(e.s))
    ensures var mss := SendMss(e.s);
            var segs := Handle(e, Send(data, now)).1;
            && |segs| == Pieces(|data|, mss) && Payload(segs) == data
            && IsPiece(segs[i], (e.base + |e.sent|) % M, e.s.ack, data, Start(mss, i), Stop(|data|, mss, i))
  {
    hide Chunks, Payload, Pieces, FreeWindow, SendMss, Start, Stop;
    var mss := SendMss(e.s);
    SomePieces(|data|, mss);
    var space := TX_BUF_SIZE - |e.s.tx|;
    var s1 := e.s.(tx := e.s.tx + data[..if |data| < space then |data| else space]);
    PieceCount(s1, e.s.seqno, data, 0, mss);
    PieceAt(s1, e.s.seqno, data, 0, mss, i);
    ChunksComplete(s1, e.s.seqno, data, 0, mss);
  }

  lemma SomePieces(n: nat, mss: nat)
    requires 0 < mss && Pieces(n, mss) > 0
    ensures n > 0
  {
  }

  /** A peer that announces an MSS from 64 bytes on never gets a longer piece. */
  lemma MssKept(s: Socket, g: Segment, m: nat, now: nat)
    requires s.state == SYN_SENT && g.syn && g.ack && !g.rst && g.mss == Some(m) && m >= 64
    ensures SendMss(Receive(s, g, now).0) == Min(m, OUR_MSS)
  {
  }

  /** A SYN-ACK is answered by the acknowledgement of its SYN, and a peer without an option gets the default. */
  lemma HandshakeAnswered(s: Socket, g: Segment, now: nat)
    requires s.state == SYN_SENT && g.syn && g.ack && !g.rst && |s.rx| <= RX_BUF_SIZE
    ensures var (t, segs) := Receive(s, g, now);
            && segs == [Segment(s.seqno, (g.seqno + 1) % M, false, false, false, false, true, RX_BUF_SIZE - |s.rx|,
               None, [])]
            && t.rtoDeadline == 0 && (g.mss == None && s.peerMss == 0 ==> SendMss(t) == 536)
  {
  }

  /** An unanswered SYN is sent again as it was, with our MSS. */
  lemma SynRepeated(s: Socket, now: nat)
    requires s.state == SYN_SENT && 0 < s.rtoDeadline <= now && s.rtoTries < MAX_RETRIES && |s.rx| <= RX_BUF_SIZE
    ensures Poll(s, now).1
            == [Segment(s.iss, 0, false, true, false, false, false, RX_BUF_SIZE - |s.rx|, Some(1460), [])]
  {
  }

  /** A window update is an acknowledgement of all that is here. */
  lemma UpdateSent(e: End, p: End)
    requires Mirror(e) && Received(e, p) && e.s.state == ESTABLISHED
    ensures Handle(e, Update) == (e, [Segment(e.s.seqno, (p.base + |e.got|) % M, false, false, false, false, true,
                                             RX_BUF_SIZE - |e.s.rx|, None, [])])
  {
  }

  /** New data acknowledged clears the retries and restarts the timer, or stops it when nothing is left. */
  lemma AckRestarts(e: End, r: u32, now: nat)
    requires Mirror(e)
    ensures var s := HandleAck(e.s, r, now);
            if Acked(e.s, r) == 0 then s == e.s
            else s.rtoTries == 0 && (s.rtoDeadline == if s.tx != [] then now + 30 else 0)
  {
  }

  // ---------------------------------------------------------- received segments

  /**
   * Every data segment is answered by one acknowledgement of all that has been
   * received, and is appended as far as it is new, whatever its overlap, if it
   * leaves no gap and fits.
   */
  lemma DataAnswered(e: End, p: End, k: Packet, now: nat)
    requires Mirror(e) && Mirror(p) && Received(e, p) && Carried(p, e, k) && e.s.state == ESTABLISHED
    requires k.g.data != [] && |e.got| < k.off + M
    ensures var (e', segs) := Handle(e, Arrive(k, now));
            var end := k.off + |k.g.data|;
            && e'.got == (if k.off <= |e.got| < end && |e.s.rx| + (end - |e.got|) <= RX_BUF_SIZE then p.sent[..end]
               else e.got)
            && e'.s.state == ESTABLISHED && e'.s.rx == e'.got[e.drained..]
            && segs == [Segment(e.s.seqno, (p.base + |e'.got|) % M, false, false, false, false, true,
                                RX_BUF_SIZE - |e'.s.rx|, None, [])]
  {
    hide Mirror, HandleAck, Sub32, ConsumeData, Received, Carried;
    var s1 := AckedSocket(e.s, k.g, now);
    AckKeeps(e.s, k.g, now);
    DataConsumed(e, p, k, s1);
    AckForm(e, p, k);
  }

  lemma AckForm(e: End, p: End, k: Packet)
    requires Received(e, p) && Carried(p, e, k) && k.g.data != []
    ensures !k.g.fin && !k.g.rst && |e.s.rx| <= RX_BUF_SIZE && e.s.rx == e.got[e.drained..] && e.drained <= |e.got|
    ensures e.s.state == ESTABLISHED ==> e.s.ack == (p.base + |e.got|) % M
  {
  }

  lemma DataConsumed(e: End, p: End, k: Packet, s1: Socket)
    requires Mirror(p) && Received(e, p) && Carried(p, e, k) && e.s.state == ESTABLISHED
    requires k.g.data != [] && |e.got| < k.off + M && s1.rx == e.s.rx && s1.ack == e.s.ack
    ensures var c := ConsumeData(s1, k.g);
            var end := k.off + |k.g.data|;
            var got := e.got + c.s.rx[|s1.rx|..];
            && s1.rx <= c.s.rx && |c.s.rx| <= RX_BUF_SIZE && c.s.rx == got[e.drained..]
            && got == (if k.off <= |e.got| < end && |s1.rx| + (end - |e.got|) <= RX_BUF_SIZE then p.sent[..end]
               else e.got)
            && c.s == s1.(rx := c.s.rx, ack := (p.base + |got|) % M)
            && if c.took then c.segs == [] else c.segs == Ack(c.s)
  {
    hide Mirror, Sub32, Carried, Received, Ack;
    HavePosition(e, p, k);
    AckForm(e, p, k);
    CarriedData(p, e, k);
    var have := Sub32(e.s.ack, k.g.seqno);
    AppendDrop(e.got, [], e.drained);
    if have < HALF && have < |k.g.data| && |s1.rx| + |k.g.data| - have <= RX_BUF_SIZE {
      Appended(e, p, k, k.g.data[have..]);
    } else {
      assert s1.rx[|s1.rx|..] == [] && e.got + [] == e.got;
    }
  }

  lemma CarriedData(p: End, e: End, k: Packet)
    requires Carried(p, e, k) && k.g.data != []
    ensures 0 < |k.g.data| < HALF && k.off + |k.g.data| <= |p.sent| && k.g.data == p.sent[k.off..k.off + |k.g.data|]
  {
  }

  lemma Appended(e: End, p: End, k: Packet, novel: seq<byte>)
    requires Received(e, p) && Carried(p, e, k) && e.s.state == ESTABLISHED
    requires k.off <= |e.got| < k.off + |k.g.data| && novel == k.g.data[|e.got| - k.off..]
    ensures var rx, got := e.s.rx + novel, p.sent[..k.off + |k.g.data|];
            rx[|e.s.rx|..] == novel && e.got + novel == got && rx == got[e.drained..]
    ensures Add32(e.s.ack, |novel|) == (p.base + k.off + |k.g.data|) % M
  {
    PrefixGrows(p.sent, e.got, k.off, k.g.data);
    AddMod(p.base, |e.got|, |novel|);
    AppendDrop(e.got, novel, e.drained);
  }

  lemma AckKeeps(s: Socket, g: Segment, now: nat)
    ensures var s1 := AckedSocket(s, g, now);
            && s1 == s.(tx := s1.tx, sndUna := s1.sndUna, rtoTries := s1.rtoTries, rtoDeadline := s1.rtoDeadline)
  {
  }

  lemma AckKeepsRx()
    ensures forall s, a, now :: HandleAck(s, a, now).rx == s.rx
  {
  }

  /** An acknowledgement is not answered. */
  lemma AckNotAnswered(e: End, k: Packet, now: nat)
    requires e.s.state == ESTABLISHED && k.g.data == [] && !k.g.fin && !k.g.rst
    ensures var (e', segs) := Handle(e, Arrive(k, now)); segs == [] && e'.got == e.got && e'.s.state == ESTABLISHED
  {
    hide HandleAck;
    AckKeeps(e.s, k.g, now);
  }

  /**
   * A FIN is taken exactly when the whole stream before it is here. It is answered
   * by its acknowledgement and the socket's own FIN at the end of its own stream.
   */
  lemma FinAnswered(e: End, p: End, k: Packet, now: nat)
    requires Mirror(e) && Received(e, p) && Carried(p, e, k) && e.s.state == ESTABLISHED && k.g.fin
    requires |e.got| < k.off + M && k.off < |e.got| + M
    ensures var (e', segs) := Handle(e, Arrive(k, now));
            && (e'.finGot <==> k.off == |e.got|) && e'.got == e.got
            && (e'.finGot ==>
                  && |segs| == 2 && e'.s.state == LAST_ACK && segs[0].data == segs[1].data == []
                  && segs[0].ack && segs[1].ack && segs[0].ackno == segs[1].ackno == (p.base + |e.got| + 1) % M
                  && segs[0].seqno == segs[1].seqno == (e.base + |e.sent|) % M && !segs[0].fin && segs[1].fin)
            && (!e'.finGot ==> segs == [] && e'.s.state == ESTABLISHED)
  {
    hide HandleAck, Sub32, FreeWindow, ReceiveEstablished, Mirror, Received, AckedSocket;
    FinFacts(e, p, k);
    FinTaken(e.s, k.g, now);
    assert e.s.rx[|e.s.rx|..] == [] && e.got + [] == e.got;
    SameEnd(p.base, k.off, |e.got|);
    AddMod(p.base, |e.got|, 1);
  }

  lemma FinFacts(e: End, p: End, k: Packet)
    requires Mirror(e) && Received(e, p) && Carried(p, e, k) && e.s.state == ESTABLISHED && k.g.fin
    ensures e.s.ack == (p.base + |e.got|) % M && e.s.seqno == (e.base + |e.sent|) % M && !e.finGot
    ensures k.g.data == [] && !k.g.rst && k.g.seqno == (p.base + k.off) % M
  {
  }

  lemma FinTaken(s: Socket, g: Segment, now: nat)
    requires g.fin && g.data == []
    ensures var s1 := AckedSocket(s, g, now);
            var s2 := s1.(ack := Add32(s.ack, 1));
            && s1 == s.(tx := s1.tx, sndUna := s1.sndUna, rtoTries := s1.rtoTries, rtoDeadline := s1.rtoDeadline)
            && ReceiveEstablished(s, g, now) ==
               if g.seqno == s.ack
               then (s2.(seqno := Add32(s.seqno, 1), state := LAST_ACK), Ack(s2) + Output(s2, s.seqno, true, false, []))
               else (s1, [])
  {
    hide HandleAck, FreeWindow, Ack, Output;
    AckKeeps(s, g, now);
    var s2 := AckedSocket(s, g, now).(ack := Add32(s.ack, 1));
    var none: seq<Segment> := [];
    assert none + Ack(s2) + Output(s2, s2.seqno, true, false, []) == Ack(s2) + Output(s2, s.seqno, true, false, []);
  }

  /** A socket that waits for the end of its closing is done exactly when all it sent is acknowledged, FINs included. */
  lemma LastAckIff(e: End, p: End, k: Packet, now: nat)
    requires Mirror(e) && Carried(p, e, k) && k.g.ack && (e.s.state == LAST_ACK || e.s.state == FIN_WAIT_1)
    requires |e.sent| + e.fins < k.ackOff + M && k.ackOff < |e.sent| + e.fins + M
    ensures var s := Handle(e, Arrive(k, now)).0.s;
            && (e.s.state == LAST_ACK ==> (s.state == CLOSED <==> k.ackOff == |e.sent| + e.fins))
            && (e.s.state == FIN_WAIT_1 && !k.g.fin ==> (s.state == FIN_WAIT_2 <==> k.ackOff == |e.sent| + e.fins))
  {
    hide HandleAck, Sub32;
    AckKeeps(e.s, k.g, now);
    SameEnd(e.base, k.ackOff, |e.sent| + e.fins);
  }

  /** A FIN that arrives at a closing socket is acknowledged at once, and the socket is closed. */
  lemma ClosingFinAnswered(e: End, p: End, k: Packet, now: nat)
    requires Carried(p, e, k) && k.g.fin && (e.s.state == FIN_WAIT_1 || e.s.state == FIN_WAIT_2)
    ensures var (e', segs) := Handle(e, Arrive(k, now));
            && e'.s.state == CLOSED
            && |segs| == 1 && segs[0].ack && !segs[0].fin && segs[0].data == []
            && segs[0].ackno == (p.base + k.off + 1) % M
  {
    hide HandleAck, Sub32, FreeWindow;
    AckKeeps(e.s, k.g, now);
    AddMod(p.base, k.off, 1);
    AddMod(p.base, k.off, 0);
  }

  /** Closing transmits one FIN, at the end of the stream. */
  lemma CloseSendsFin(e: End)
    requires Mirror(e) && e.s.state != CLOSED
    ensures var (e', segs) := Handle(e, CloseSocket);
            && e'.s.state == FIN_WAIT_1 && e'.s.seqno == (e.base + |e.sent| + e.fins + 1) % M
            && |segs| == 1 && segs[0].fin && segs[0].ack && segs[0].data == []
            && segs[0].seqno == (e.base + |e.sent| + e.fins) % M && segs[0].ackno == e.s.ack
  {
    AddMod(e.base, |e.sent| + e.fins, 1);
  }

  /** A reset closes the socket and stops its timer, and is not answered. */
  lemma ResetCloses(e: End, k: Packet, now: nat)
    requires k.g.rst
    ensures var (e', segs) := Handle(e, Arrive(k, now));
            e'.s == e.s.(state := CLOSED, rtoDeadline := 0) && segs == []
  {
  }

  /** Whatever a socket transmits advertises the part of its buffer that is free then. */
  lemma WindowHonest(e: End, v: Event, i: nat)
    requires |e.s.rx| <= RX_BUF_SIZE && (v.Read? ==> v.n <= |e.s.rx|) && i < |Handle(e, v).1|
    ensures var (e', segs) := Handle(e, v); |e'.s.rx| <= RX_BUF_SIZE && segs[i].window == RX_BUF_SIZE - |e'.s.rx|
  {
    hide HandleAck, Sub32, Chunks, Pow2, ReceiveEstablished;
    match v
    case Send(data, now) =>
      var mss := SendMss(e.s);
      var space := if |e.s.tx| <= TX_BUF_SIZE then TX_BUF_SIZE - |e.s.tx| else 0;
      var s1 := e.s.(tx := e.s.tx + data[..if |data| < space then |data| else space]);
      var k := ChunksCarry(s1, e.s.seqno, data, 0, mss, i);
    case Timeout(now) =>
      if e.s.state == ESTABLISHED {
        var s1 := Poll(e.s, now).0;
        var k := ChunksCarry(s1, e.s.sndUna, e.s.tx, 0, if e.s.peerMss != 0 then e.s.peerMss else DEFAULT_MSS, i);
      }
    case Arrive(k, now) =>
      AckKeeps(e.s, k.g, now);
      AckKeepsRx();
      if e.s.state == ESTABLISHED && !k.g.rst { EstablishedWindow(e.s, k.g, now, i); }
    case _ =>
  }

  lemma EstablishedWindow(s: Socket, g: Segment, now: nat, i: nat)
    requires |s.rx| <= RX_BUF_SIZE && i < |ReceiveEstablished(s, g, now).1|
    ensures var (s', segs) := ReceiveEstablished(s, g, now);
            |s'.rx| <= RX_BUF_SIZE && segs[i].window == RX_BUF_SIZE - |s'.rx|
  {
    hide HandleAck, Sub32, Add32;
    AckKeeps(s, g, now);
  }

  // -------------------------------------------------------------------- timers

  /** A socket that is polled at n deadlines in a row without hearing from its peer. */
  ghost function Unheard(s: Socket, n: nat): Socket
  {
    if n == 0 then s else var t := Unheard(s, n - 1); Poll(t, t.rtoDeadline).0
  }

  /** The waiting times double from 60 ticks on; after six repetitions the socket gives up. */
  lemma {:induction false} GivesUp(s: Socket, n: nat)
    requires s.state == ESTABLISHED && s.tx != [] && s.rtoDeadline > 0 && s.rtoTries == 0 && n <= 7
    ensures n <= 6 ==> Unheard(s, n) == s.(rtoTries := n, rtoDeadline := s.rtoDeadline + 60 * (Pow2(n) - 1))
    ensures n == 7 ==> Unheard(s, n).state == CLOSED && Unheard(s, n).rtoDeadline == 0
  {
    hide Chunks, Pow2;
    if n > 0 {
      GivesUp(s, n - 1);
      PowTwice(n - 1);
    } else {
      PowTwice(0);
    }
  }

  lemma PowTwice(n: nat)
    ensures Pow2(n + 1) == 2 * Pow2(n) && Pow2(0) == 1
  {
  }

  // ------------------------------------------------------------------ recovery

  /** Consecutive packets in flight to the end of a's stream, up to date in what they acknowledge. */
  ghost predicate Train(m: Net, ks: seq<Packet>)
  {
    && ks != [] && (forall j :: 0 <= j < |ks| ==> Car(m, ks[j]))
    && (forall j :: 0 <= j < |ks| - 1 ==> ks[j + 1].off == ks[j].off + |ks[j].g.data|)
    && ks[|ks| - 1].off + |ks[|ks| - 1].g.data| == |m.a.sent|
  }

  ghost predicate Car(m: Net, k: Packet)
  {
    k in m.ab && k.g.data != [] && k.ackOff == |m.a.got| && m.a.una <= k.off
  }

  /** Both sides are ESTABLISHED, and the reader has taken enough for the rest of a's stream to fit. */
  ghost predicate Ready(m: Net)
  {
    Inv(m) && m.a.s.state == m.b.s.state == ESTABLISHED && |m.a.sent| - m.b.drained <= RX_BUF_SIZE
  }

  /** r acknowledges all that b has. */
  ghost predicate Reply(m: Net, r: Packet)
  {
    && r in m.ba && r.g.data == [] && !r.g.fin && !r.g.rst && r.g.ack
    && r.ackOff == |m.b.got| && r.off >= m.b.una
  }

  ghost function Arrival(m: Net, k: Packet): Net
    requires Enabled(m.b, m.ab, Arrive(k, 0))
  {
    Swap(Act(Swap(m), Arrive(k, 0)))
  }

  /** One packet that leaves no gap arrives at b. */
  lemma Deliver(m: Net, k: Packet) returns (r: Packet)
    requires Ready(m) && Car(m, k) && k.off <= |m.b.got|
    ensures Enabled(m.b, m.ab, Arrive(k, 0))
    ensures var m' := Arrival(m, k);
            && Step(m, m') && Ready(m') && m'.a == m.a && m'.ab == m.ab && Reply(m', r)
            && |m'.b.got| == Max(|m.b.got|, k.off + |k.g.data|)
  {
    hide Mirror, Received, Carried, Tag, Inv, Receive;
    var e, v := m.b, Arrive(k, 0);
    Young(m, k);
    DataAnswered(e, m.a, k, 0);
    ArrivalStep(m, k);
    var (e', segs) := Handle(e, v);
    r := Tag(e', m.a, segs[0]);
    assert r in TagAll(e', m.a, segs);
    ReplyTag(e', m.a, segs[0]);
    Sizes(e, e', m.a, k);
  }

  lemma ArrivalStep(m: Net, k: Packet)
    requires Inv(m) && Enabled(m.b, m.ab, Arrive(k, 0))
    ensures Step(m, Arrival(m, k)) && Inv(Arrival(m, k))
  {
    hide Inv, Enabled;
    InvSymmetric(m);
    ActPreserves(Swap(m), Arrive(k, 0));
    InvSymmetric(Act(Swap(m), Arrive(k, 0)));
  }

  function Max(a: nat, b: nat): nat { if a > b then a else b }

  lemma Young(m: Net, k: Packet)
    requires Ready(m) && Car(m, k)
    ensures |m.b.got| < k.off + M && |m.b.sent| + m.b.fins < k.ackOff + M && Carried(m.a, m.b, k)
    ensures Mirror(m.a) && Mirror(m.b) && Received(m.b, m.a)
  {
    StreamBound(m.a);
    StreamBound(m.b);
    hide Mirror;
  }

  lemma ReplyTag(e: End, peer: End, g: Segment)
    requires g.ackno == (peer.base + |e.got|) % M
    ensures Tag(e, peer, g).ackOff == |e.got| && Tag(e, peer, g).g == g && Tag(e, peer, g).off >= e.una
  {
    hide M;
    SubAhead(peer.base, |e.got|, |e.got|);
  }

  lemma Sizes(e: End, e': End, p: End, k: Packet)
    requires Received(e, p) && Carried(p, e, k) && k.g.data != [] && k.off <= |e.got|
             && |p.sent| - e.drained <= RX_BUF_SIZE
    requires var end := k.off + |k.g.data|;
             e'.got == if k.off <= |e.got| < end && |e.s.rx| + (end - |e.got|) <= RX_BUF_SIZE then p.sent[..end]
                 else e.got
    ensures |e'.got| == Max(|e.got|, k.off + |k.g.data|)
  {
  }

  /** A train arrives without loss and in order. */
  lemma {:induction false} DeliverAll(m: Net, ks: seq<Packet>) returns (ns: seq<Net>, r: Packet)
    requires Ready(m) && Train(m, ks) && ks[0].off <= |m.b.got|
    ensures Run(ns) && ns[0] == m && |ns| == |ks| + 1
    ensures var last := ns[|ns| - 1]; Ready(last) && last.a == m.a && last.b.got == m.a.sent && Reply(last, r)
    decreases |ks|
  {
    hide Step, Ready, Car, Reply;
    r := Deliver(m, ks[0]);
    var m' := Arrival(m, ks[0]);
    assert Run([m, m']);
    if |ks| == 1 {
      ns := [m, m'];
      WholeStream(m');
    } else {
      CarsStay(m, m', ks);
      var rest;
      rest, r := DeliverAll(m', ks[1..]);
      ns := [m] + rest;
      RunCons(m, rest);
    }
  }

  lemma NothingLeft(n: Net)
    requires Ready(n) && n.a.s.tx == []
    ensures n.a.una == |n.a.sent| && n.b.got == n.a.sent && n.a.s.state == n.b.s.state == ESTABLISHED && Run([n])
  {
    hide Carried;
  }

  lemma FirstFits(m: Net, ks: seq<Packet>)
    requires Ready(m) && Train(m, ks) && ks[0].off == m.a.una
    ensures ks[0].off <= |m.b.got|
  {
    hide Mirror, Carried;
  }

  lemma RunSnoc(ns: seq<Net>, m: Net)
    requires Run(ns) && Step(ns[|ns| - 1], m)
    ensures Run(ns + [m])
  {
    hide Step;
  }

  lemma RunCons(m: Net, ns: seq<Net>)
    requires Run(ns) && Step(m, ns[0])
    ensures Run([m] + ns)
  {
    hide Step;
  }

  lemma WholeStream(m: Net)
    requires Ready(m) && |m.b.got| >= |m.a.sent|
    ensures m.b.got == m.a.sent
  {
    hide Mirror, Carried;
  }

  lemma CarsStay(m: Net, m': Net, ks: seq<Packet>)
    requires Train(m, ks) && |ks| > 1 && m'.a == m.a && m'.ab == m.ab
    ensures Train(m', ks[1..])
  {
  }

  /** A timeout repeats all of tx and changes nothing but the timer. */
  lemma TimeoutSegments(n: Net, m: Net, now: nat, mss: nat)
    requires Ready(n) && n.a.s.tx != [] && n.a.s.rtoTries < MAX_RETRIES && now == n.a.s.rtoDeadline
    requires m == Act(n, Timeout(now)) && mss == if n.a.s.peerMss != 0 then n.a.s.peerMss else DEFAULT_MSS
    ensures Ready(m) && Step(n, m) && m.b == n.b && m.ba == n.ba
    ensures m.a.s == n.a.s.(rtoTries := m.a.s.rtoTries, rtoDeadline := m.a.s.rtoDeadline) && m.a == n.a.(s := m.a.s)
    ensures m.a.s.rtoDeadline > 0
    ensures m.ab == n.ab + TagAll(m.a, n.b, Chunks(m.a.s, n.a.s.sndUna, n.a.s.tx, 0, mss))
  {
    hide Chunks, Pow2, Carried, Received, TagAll;
    TxFacts(n.a);
    assert Enabled(n.a, n.ba, Timeout(now));
    TimeoutGood(n, now);
  }

  /** The retransmission of all of tx is a train. */
  lemma TimeoutTrain(n: Net, m: Net, now: nat) returns (ks: seq<Packet>)
    requires Ready(n) && n.a.s.tx != [] && n.a.s.rtoTries < MAX_RETRIES && now == n.a.s.rtoDeadline
    requires m == Act(n, Timeout(now))
    ensures Ready(m) && Step(n, m) && m.a == n.a.(s := m.a.s) && m.b == n.b && Train(m, ks) && ks[0].off == n.a.una
    ensures |ks| <= |n.a.s.tx|
  {
    hide Chunks, Inv, Act, Step, Carried, Received, Tag, Start, Stop, Pieces, Mirror, Car, TagAll;
    var e, s := n.a, m.a.s;
    var mss := if e.s.peerMss != 0 then e.s.peerMss else DEFAULT_MSS;
    TimeoutSegments(n, m, now, mss);
    ReadyMirror(n);
    var segs := Chunks(s, e.s.sndUna, e.s.tx, 0, mss);
    PieceCount(s, e.s.sndUna, e.s.tx, 0, mss);
    Joined(|e.s.tx|, mss);
    ks := seq(|segs|, i requires 0 <= i < |segs| => Tag(m.a, n.b, segs[i]));
    forall j | 0 <= j < |segs| ensures Car(m, ks[j]) && ks[j].off == e.una + Start(mss, j)
                                       && |ks[j].g.data| == Stop(|e.s.tx|, mss, j) - Start(mss, j)
    {
      PieceCar(n, m, mss, segs, j);
    }
    StartStep(mss, 0);
  }

  lemma PieceCar(n: Net, m: Net, mss: nat, segs: seq<Segment>, j: nat)
    requires Ready(n) && n.a.s.tx != [] && 0 < mss <= OUR_MSS && m.a.s.rtoDeadline > 0 && m.a == n.a.(s := m.a.s)
    requires m.a.s == n.a.s.(rtoTries := m.a.s.rtoTries, rtoDeadline := m.a.s.rtoDeadline)
    requires segs == Chunks(m.a.s, n.a.s.sndUna, n.a.s.tx, 0, mss) && m.ab == n.ab + TagAll(m.a, n.b, segs)
             && j < |segs|
    ensures var k := Tag(m.a, n.b, segs[j]);
            && Car(m, k) && k.off == n.a.una + Start(mss, j)
            && |k.g.data| == Stop(|n.a.s.tx|, mss, j) - Start(mss, j)
  {
    hide Chunks, Inv, Carried, Received, Tag, Start, Stop, FreeWindow;
    ReadyMirror(n);
    PieceAt(m.a.s, n.a.s.sndUna, n.a.s.tx, 0, mss, j);
    PieceTag(n, m.a, segs[j], Start(mss, j));
    assert Tag(m.a, n.b, segs[j]) in TagAll(m.a, n.b, segs);
  }

  lemma ReadyMirror(n: Net)
    requires Ready(n) && n.a.s.tx != []
    ensures n.a.una + |n.a.s.tx| == |n.a.sent| && n.a.s.peerMss <= OUR_MSS
  {
    hide Received, Carried;
    TxFacts(n.a);
  }

  /** Pieces follow each other, and the last one ends with the data. */
  lemma Joined(n: nat, mss: nat)
    requires 0 < mss && 0 < n
    ensures 0 < Pieces(n, mss) <= n && Stop(n, mss, Pieces(n, mss) - 1) == n
    ensures forall j :: 0 <= j < Pieces(n, mss) - 1 ==> Stop(n, mss, j) == Start(mss, j + 1)
  {
    hide Start;
    var q := Pieces(n, mss);
    PieceBounds(n, mss);
    forall j | 0 <= j < q - 1 ensures Stop(n, mss, j) == Start(mss, j + 1) { StartMono(mss, j + 1, q - 1); }
  }

  lemma PieceBounds(n: nat, mss: nat)
    requires 0 < mss && 0 < n
    ensures var q := Pieces(n, mss); 0 < q <= n && Start(mss, q - 1) < n <= Start(mss, q)
  {
    var q, r := Pieces(n, mss), (n + mss - 1) % mss;
    assert q * mss == n + mss - 1 - r;
    assert q == 0 ==> q * mss == 0;
    assert (q - 1) * mss == q * mss - mss;
    if q > n { MulMono(n, q - 1, mss); MulMono(1, mss, n); }
  }

  lemma StartMono(mss: nat, i: nat, j: nat)
    requires i <= j
    ensures Start(mss, i) <= Start(mss, j)
  {
    MulMono(i, j, mss);
  }

  lemma TxFacts(e: End)
    requires Mirror(e) && e.s.state == ESTABLISHED && e.s.tx != []
    ensures e.s.rtoDeadline > 0 && e.fins == 0 && e.s.peerMss <= OUR_MSS && e.una + |e.s.tx| == |e.sent|
  {
  }

  lemma PieceTag(n: Net, e: End, g: Segment, k: nat)
    requires Ready(n) && e == n.a.(s := e.s) && e.s == n.a.s.(rtoTries := e.s.rtoTries, rtoDeadline := e.s.rtoDeadline)
    requires n.a.s.tx != [] && e.s.rtoDeadline > 0 && k <= |e.sent| - e.una && g.seqno == Add32(n.a.s.sndUna, k)
             && g.ackno == n.a.s.ack
    ensures Tag(e, n.b, g).off == e.una + k && Tag(e, n.b, g).ackOff == |e.got| && Tag(e, n.b, g).g == g
  {
    hide Carried;
    AddMod(e.base, e.una, k);
    TagPosition(e, n.b, g, e.una + k);
  }

  /** The last acknowledgement arrives at a. */
  lemma Acknowledge(m: Net, r: Packet)
    requires Ready(m) && m.b.got == m.a.sent && Reply(m, r)
    ensures Enabled(m.a, m.ba, Arrive(r, 0))
    ensures var m' := Act(m, Arrive(r, 0));
            && Step(m, m') && Inv(m') && m'.b == m.b && m'.a.sent == m.a.sent && m'.a.got == m.a.got
            && m'.a.s.state == m'.b.s.state == ESTABLISHED && m'.a.una == |m'.a.sent| && m'.a.s.tx == []
  {
    hide Mirror, Received, Carried, HandleAck, ReceiveEstablished, TagAll;
    var e, v := m.a, Arrive(r, 0);
    ReplyYoung(m, r);
    ActPreserves(m, v);
    assert Step(m, Act(m, v));
    AckTaken(e.s, r.g, 0);
    AckKeeps(e.s, r.g, 0);
    UnaMoves(e, r.g.ackno, 0);
    AckedPosition(e, r.ackOff);
    assert e.s.rx[|e.s.rx|..] == [] && e.got + [] == e.got;
    EmptyTx(Act(m, v).a);
  }

  lemma ReplyYoung(m: Net, r: Packet)
    requires Ready(m) && m.b.got == m.a.sent && Reply(m, r)
    ensures |m.a.got| < r.off + M && |m.a.sent| + m.a.fins < r.ackOff + M && Mirror(m.a) && m.a.fins == 0
    ensures r.g.ackno == (m.a.base + r.ackOff) % M && m.a.una <= |m.a.sent|
  {
  }

  lemma AckTaken(s: Socket, g: Segment, now: nat)
    requires !g.fin && g.data == []
    ensures ReceiveEstablished(s, g, now) == (AckedSocket(s, g, now), [])
  {
    hide HandleAck;
  }

  lemma EmptyTx(e: End)
    requires Mirror(e) && e.una >= |e.sent|
    ensures e.s.tx == []
  {
  }

  /**
   * From every state of a run in which both sides are ESTABLISHED, a has not given
   * up and the reader has made room, the protocol can complete the stream: a
   * timeout, its packets without loss and the last acknowledgement bring all that
   * was sent to b and empty tx.
   */
  lemma Recovers(n: Net) returns (ns: seq<Net>)
    requires Ready(n) && n.a.s.rtoTries < MAX_RETRIES
    ensures Run(ns) && ns[0] == n && |ns| <= |n.a.s.tx| + 3
    ensures var m := ns[|ns| - 1];
            && m.a.sent == m.b.got == n.a.sent && m.a.una == |m.a.sent| && m.a.s.tx == []
            && m.a.s.state == m.b.s.state == ESTABLISHED
  {
    hide Ready, Step, Act, Train, Reply, Run;
    if n.a.s.tx == [] {
      ns := [n];
      NothingLeft(n);
    } else {
      var now := n.a.s.rtoDeadline;
      var n1 := Act(n, Timeout(now));
      var ks := TimeoutTrain(n, n1, now);
      FirstFits(n1, ks);
      var mid, r := DeliverAll(n1, ks);
      var last := mid[|mid| - 1];
      Acknowledge(last, r);
      RunCons(n, mid);
      RunSnoc([n] + mid, Act(last, Arrive(r, 0)));
      ns := [n] + mid + [Act(last, Arrive(r, 0))];
    }
  }
}
