/** What the TCP client does with each segment and each send, and what holds over whole runs. */
module TcpProtocol {
  import opened Bytes

  const WRAP: nat := 0x1_0000_0000

  /** A 32-bit sequence number. */
  function Wrap(x: int): (r: nat)
    ensures r < WRAP
  {
    x % WRAP
  }

  datatype State = Closed | Opened | SynSent | FinWait | Established

  datatype Segment = Segment(
    seqNum: nat, ackNum: nat, fin: bool, syn: bool, rst: bool, psh: bool, ack: bool, window: nat, data: seq<byte>)

  /**
   * One end of a connection, with what it has put on the wire, the bytes whose send it has reported as
   * done, and what its socket has received.
   */
  datatype Tcb = Tcb(
    state: State, sndNxt: nat, sndUna: nat, rcvNxt: nat, sent: seq<Segment>, accepted: seq<byte>, delivered: seq<byte>)

  function Created(iss: nat): Tcb {
    Tcb(Opened, iss, iss, 0, [], [], [])
  }

  const WINDOW: nat := 4096

  const MAX_DATA: nat := 1480

  /** What ip_send carries of a segment: 1500 bytes, of which the header takes 20. */
  function Carried(data: seq<byte>): seq<byte> {
    if |data| > MAX_DATA then data[..MAX_DATA] else data
  }

  /** What arrives of a segment with these flags; only an ACK carries the receive counter. */
  function Built(t: Tcb, syn: bool, ack: bool, psh: bool, data: seq<byte>): Segment {
    Segment(t.sndNxt, if ack then t.rcvNxt else 0, false, syn, false, psh, ack, WINDOW, Carried(data))
  }

  /** Sending one; the numbers move on, over all of the data, only if the link takes it. */
  function Transmit(t: Tcb, syn: bool, ack: bool, psh: bool, data: seq<byte>, link: bool): Tcb {
    if !link then t
    else t.(sent := t.sent + [Built(t, syn, ack, psh, data)], accepted := t.accepted + data,
            sndNxt := Wrap(t.sndNxt + |data| + (if syn then 1 else 0)))
  }

  function Acknowledge(t: Tcb, link: bool): Tcb {
    Transmit(t, false, true, false, [], link)
  }

  function Send(t: Tcb, data: seq<byte>, link: bool): Tcb {
    match t.state
    case Opened => Transmit(t.(state := SynSent), true, false, false, [], link)
    case Established => Transmit(t, false, true, true, data, link)
    case _ => t
  }

  predicate ResetRefused(t: Tcb, seg: Segment) {
    seg.seqNum < t.rcvNxt || seg.seqNum >= Wrap(t.rcvNxt + seg.window)
  }

  function Receive(t: Tcb, seg: Segment, link: bool): Tcb {
    if t.state == Closed then t
    else if seg.fin then Acknowledge(t.(rcvNxt := Wrap(t.rcvNxt + 1)), link).(state := Closed)
    else if seg.rst then (if ResetRefused(t, seg) then t else t.(state := Closed))
    else
      match t.state
      case SynSent =>
        if !seg.syn || !seg.ack || seg.ackNum != t.sndNxt then t
        else Acknowledge(t.(rcvNxt := Wrap(seg.seqNum + 1), sndUna := seg.ackNum), link).(state := Established)
      case Established =>
        if seg.data == [] then t
        else if seg.seqNum != t.rcvNxt then Acknowledge(t, link)
        else Acknowledge(t.(rcvNxt := Wrap(t.rcvNxt + |seg.data|), delivered := t.delivered + seg.data), link)
      case _ => t
  }

  datatype Event = Arrives(seg: Segment, link: bool) | Sends(data: seq<byte>, link: bool)

  function Step(t: Tcb, e: Event): Tcb {
    match e
    case Arrives(seg, link) => Receive(t, seg, link)
    case Sends(data, link) => Send(t, data, link)
  }

  function Run(t: Tcb, events: seq<Event>): Tcb {
    if events == [] then t else Step(Run(t, events[..|events| - 1]), events[|events| - 1])
  }

  // ----- the peer -----

  /** The segment carries the stretch of the stream that starts at offset o. */
  ghost predicate Carries(irs: nat, stream: seq<byte>, seg: Segment, o: nat) {
    && o + |seg.data| <= |stream| && seg.seqNum == Wrap(irs + 1 + o)
    && seg.data == stream[o..o + |seg.data|]
  }

  /** A segment a well-behaved sender of the stream may emit: its SYN, a stretch of data, its FIN, or a reset. */
  ghost predicate Honest(irs: nat, stream: seq<byte>, seg: Segment) {
    || (seg.rst && !seg.fin)
    || (seg.syn && !seg.fin && seg.data == [] && seg.seqNum == irs)
    || (!seg.syn && exists o: nat :: Carries(irs, stream, seg, o) && (seg.fin ==> o + |seg.data| == |stream|))
  }

  /** Whatever the network loses, repeats or reorders, an arrival is some segment of the peer's. */
  ghost predicate HonestRun(iss: nat, irs: nat, stream: seq<byte>, events: seq<Event>) {
    forall e {:trigger e in events} :: e in events && e.Arrives? ==>
      Honest(irs, stream, e.seg) && (e.seg.syn && e.seg.ack ==> e.seg.ackNum == Wrap(iss + 1))
  }

  // ----- the receiving half -----

  ghost predicate InOrder(irs: nat, stream: seq<byte>, t: Tcb) {
    && t.delivered <= stream
    && (t.state == Established ==> t.rcvNxt == Wrap(irs + 1 + |t.delivered|))
    && (t.state == Opened || t.state == SynSent ==> t.delivered == [])
    && t.state != FinWait
  }

  /** Offsets below 2^32 that agree as sequence numbers are the same offset. */
  lemma WrapInjective(irs: nat, m: nat, n: nat)
    requires m < WRAP && n < WRAP && Wrap(irs + 1 + m) == Wrap(irs + 1 + n)
    ensures m == n
  {
    WrapApart(irs + 1 + m, irs + 1 + n);
  }

  lemma WrapApart(x: nat, y: nat)
    requires Wrap(x) == Wrap(y)
    ensures x == y || x - y >= WRAP || y - x >= WRAP
  {
    var p, q := x / WRAP, y / WRAP;
    assert x - y == (p - q) * WRAP;
  }

  lemma WrapSmall(x: nat)
    requires x <= WRAP
    ensures Wrap(x) == if x == WRAP then 0 else x
  {
  }

  lemma WrapTwice(x: nat, k: nat)
    ensures Wrap(Wrap(x) + k) == Wrap(x + k)
  {
    assert x + k == Wrap(x) + k + WRAP * (x / WRAP);
  }

  /** One segment of the peer, whichever it is, keeps the delivered bytes a prefix of the stream. */
  lemma {:induction false} ReceiveKeepsOrder(irs: nat, stream: seq<byte>, t: Tcb, seg: Segment, link: bool)
    requires |stream| < WRAP && irs < WRAP && InOrder(irs, stream, t) && Honest(irs, stream, seg)
    ensures InOrder(irs, stream, Receive(t, seg, link))
  {
    hide Wrap;
    if t.state == Established && !seg.fin && !seg.rst && seg.data != [] && seg.seqNum == t.rcvNxt {
      var o: nat :| Carries(irs, stream, seg, o);
      WrapInjective(irs, o, |t.delivered|);
      assert t.delivered + seg.data == stream[..o + |seg.data|];
      WrapTwice(irs + 1 + o, |seg.data|);
    }
  }

  lemma {:induction false} RunInOrder(iss: nat, irs: nat, stream: seq<byte>, events: seq<Event>)
    requires |stream| < WRAP && irs < WRAP && HonestRun(iss, irs, stream, events)
    ensures InOrder(irs, stream, Run(Created(iss), events))
  {
    if events != [] {
      var before, e := events[..|events| - 1], events[|events| - 1];
      assert e in events;
      assert forall d :: d in before ==> d in events;
      RunInOrder(iss, irs, stream, before);
      if e.Arrives? {
        ReceiveKeepsOrder(irs, stream, Run(Created(iss), before), e.seg, e.link);
      }
    }
  }

  /**
   * Whatever the network does, the socket has received a prefix of the peer's stream, and while the
   * connection is open the receive counter and every ACK going out count exactly those bytes.
   */
  lemma DeliveredIsPrefix(iss: nat, irs: nat, stream: seq<byte>, events: seq<Event>, e: Event)
    requires |stream| < WRAP && irs < WRAP && HonestRun(iss, irs, stream, events + [e])
    ensures var t, u := Run(Created(iss), events), Run(Created(iss), events + [e]);
      && t.delivered <= u.delivered <= stream && t.sent <= u.sent
      && (u.state == Established ==>
            && u.rcvNxt == Wrap(irs + 1 + |u.delivered|)
            && forall s :: s in u.sent[|t.sent|..] && s.ack ==> s.ackNum == Wrap(irs + 1 + |u.delivered|))
  {
    var all := events + [e];
    assert all[..|all| - 1] == events;
    RunInOrder(iss, irs, stream, all);
    var t, u := Run(Created(iss), events), Run(Created(iss), all);
    assert u == Step(t, e);
    StepAppends(t, e);
    assert u.sent == t.sent + u.sent[|t.sent|..];
  }

  lemma StepAppends(t: Tcb, e: Event)
    ensures var u := Step(t, e);
      && t.delivered <= u.delivered && t.sent <= u.sent && |u.sent| <= |t.sent| + 1
      && (u.state == Established ==> forall s :: s in u.sent[|t.sent|..] && s.ack ==> s.ackNum == u.rcvNxt)
  {
  }

  /** Past 2^32 bytes the guarantee ends: a late copy of the first byte looks like the next one. */
  lemma WrappedStreamRepeats(irs: nat, stream: seq<byte>, t: Tcb, seg: Segment, link: bool)
    requires irs < WRAP && |stream| >= WRAP && InOrder(irs, stream, t)
    requires t.state == Established && |t.delivered| == WRAP
    requires seg.data != [] && !seg.syn && !seg.fin && !seg.rst && Carries(irs, stream, seg, 0)
    ensures Receive(t, seg, link).delivered == t.delivered + stream[..|seg.data|]
  {
    assert irs + 1 + WRAP == irs + 1 + 1 * WRAP;
  }

  // ----- the end of the stream -----

  /** What an acknowledgement number says has arrived: bytes of the stream, then the FIN. */
  function Claimed(irs: nat, ack: nat): nat {
    Wrap(ack - irs - 1)
  }

  /** It claims no byte that was not delivered; the FIN counts once everything before it was. */
  ghost predicate Sound(irs: nat, stream: seq<byte>, delivered: seq<byte>, ack: nat) {
    Claimed(irs, ack) <= |delivered| || (delivered == stream && Claimed(irs, ack) == |stream| + 1)
  }

  lemma ClaimedBack(irs: nat, n: nat)
    ensures Claimed(irs, Wrap(irs + 1 + n)) == Wrap(n)
  {
    var q: int := (irs + 1 + n) / WRAP;
    assert Wrap(irs + 1 + n) - irs - 1 == n - q * WRAP;
    WrapMinus(n, q);
  }

  lemma WrapMinus(n: nat, q: nat)
    ensures Wrap(n - q * WRAP) == Wrap(n)
  {
    var m: int := n - q * WRAP;
    var p: int, r: int := m / WRAP, n / WRAP;
    assert Wrap(m) - Wrap(n) == (r - q - p) * WRAP;
  }

  /**
   * A FIN is acknowledged wherever it stands. The reply is sound if and only if the FIN ends right
   * where the receiver stands, which the segment itself tells.
   */
  lemma {:induction false} FinAckSound(irs: nat, stream: seq<byte>, t: Tcb, seg: Segment)
    requires |stream| < WRAP && irs < WRAP && InOrder(irs, stream, t) && t.state == Established
    requires seg.fin && Honest(irs, stream, seg)
    ensures var u := Receive(t, seg, true);
      && |u.sent| == |t.sent| + 1 && u.delivered == t.delivered
      && (Sound(irs, stream, u.delivered, u.sent[|t.sent|].ackNum) <==>
            Wrap(seg.seqNum + |seg.data|) == t.rcvNxt)
  {
    hide Wrap;
    var o: nat :| Carries(irs, stream, seg, o) && o + |seg.data| == |stream|;
    WrapTwice(irs + 1 + o, |seg.data|);
    WrapTwice(irs + 1 + |t.delivered|, 1);
    ClaimedBack(irs, |t.delivered| + 1);
    WrapSmall(|t.delivered| + 1);
    if Wrap(seg.seqNum + |seg.data|) == t.rcvNxt {
      WrapInjective(irs, |stream|, |t.delivered|);
    }
  }

  /** A FIN that overtakes the only byte: the client acknowledges the byte, closes, and never delivers it. */
  lemma EarlyFinAcksLostByte()
    ensures var stream: seq<byte> := [7];
      var t := Tcb(Established, 1, 1, 1, [], [], []);
      var fin := Segment(2, 1, true, false, false, false, true, WINDOW, []);
      && InOrder(0, stream, t) && Honest(0, stream, fin)
      && var u := Receive(t, fin, true);
         u.state == Closed && u.delivered == [] && u.sent[0].ackNum == 2 && !Sound(0, stream, u.delivered, 2)
  {
    var stream: seq<byte> := [7];
    var fin := Segment(2, 1, true, false, false, false, true, WINDOW, []);
    assert Carries(0, stream, fin, 1);
  }

  /**
   * A reset closes the connection exactly when it lies in the window that its own header names, counted
   * from the next number expected, and that window's upper end does not wrap.
   */
  lemma ResetClosesExactly(t: Tcb, seg: Segment, link: bool)
    requires t.state != Closed && t.rcvNxt < WRAP && seg.seqNum < WRAP && seg.window < 0x1_0000
    requires seg.rst && !seg.fin
    ensures Receive(t, seg, link).state == Closed <==>
              Wrap(seg.seqNum - t.rcvNxt) < seg.window && t.rcvNxt + seg.window < WRAP
  {
    if seg.seqNum < t.rcvNxt {
      assert Wrap(seg.seqNum - t.rcvNxt) == seg.seqNum - t.rcvNxt + WRAP;
    }
  }

  /** Section 3.10.7.4 of RFC 9293 judges a reset by the receiver's own window: the one it announces. */
  predicate InReceiveWindow(t: Tcb, seg: Segment) {
    Wrap(seg.seqNum - t.rcvNxt) < WINDOW
  }

  /**
   * The client treats a reset as its receive window demands if and only if the peer's window, which it
   * looks at instead, says the same.
   */
  lemma ResetMeetsWindow(t: Tcb, seg: Segment, link: bool)
    requires t.state != Closed && t.rcvNxt < WRAP && seg.seqNum < WRAP && seg.window < 0x1_0000
    requires seg.rst && !seg.fin
    ensures var off, wraps := Wrap(seg.seqNum - t.rcvNxt), t.rcvNxt + seg.window >= WRAP;
      (Receive(t, seg, link).state == Closed <==> InReceiveWindow(t, seg)) <==>
        if off < WINDOW then off < seg.window && !wraps else off >= seg.window || wraps
  {
    ResetClosesExactly(t, seg, link);
  }

  /** Three resets it treats otherwise: at the very next number with a window of 0, far beyond, and near the wrap. */
  lemma ResetsMistreated(t: Tcb, seg: Segment, link: bool)
    requires t.state == Established && seg.rst && !seg.fin
    ensures t.rcvNxt == seg.seqNum == 1000 && seg.window == 0 ==> InReceiveWindow(t, seg) && Receive(t, seg, link) == t
    ensures t.rcvNxt == 1000 && seg.seqNum == 61000 && seg.window == 65535 ==>
      !InReceiveWindow(t, seg) && Receive(t, seg, link).state == Closed
    ensures t.rcvNxt == seg.seqNum == WRAP - 1 && seg.window == WINDOW ==>
      InReceiveWindow(t, seg) && Receive(t, seg, link) == t
  {
  }

  // ----- the sending half -----

  /** What went out is what a well-behaved sender of the stream emits, and the next number follows it. */
  ghost predicate Sending(iss: nat, sndNxt: nat, sent: seq<Segment>, stream: seq<byte>) {
    && sndNxt == Wrap(iss + 1 + |stream|)
    && forall s :: s in sent ==> !s.fin && Honest(iss, stream, s)
  }

  /** From the SYN on, while the connection is open; an unsent SYN leaves the client waiting for good. */
  ghost predicate SendsHonestly(iss: nat, t: Tcb) {
    match t.state
    case Closed => true
    case Opened => t.sndNxt == iss && t.sent == [] && t.accepted == []
    case SynSent => t.accepted == [] && ((t.sndNxt == iss && t.sent == []) || Sending(iss, t.sndNxt, t.sent, []))
    case _ => Sending(iss, t.sndNxt, t.sent, t.accepted)
  }

  lemma LongerStreamHonest(irs: nat, stream: seq<byte>, more: seq<byte>, seg: Segment)
    requires Honest(irs, stream, seg) && !seg.fin
    ensures Honest(irs, stream + more, seg)
  {
    if !seg.rst && !seg.syn {
      var o: nat :| Carries(irs, stream, seg, o);
      assert Carries(irs, stream + more, seg, o);
    }
  }

  lemma TransmitHonest(iss: nat, t: Tcb, data: seq<byte>, psh: bool, link: bool)
    requires iss < WRAP && Sending(iss, t.sndNxt, t.sent, t.accepted)
    ensures var u := Transmit(t, false, true, psh, data, link);
      u.state == t.state && Sending(iss, u.sndNxt, u.sent, u.accepted)
  {
    if link {
      var seg, stream := Built(t, false, true, psh, data), t.accepted;
      WrapTwice(iss + 1 + |stream|, |data|);
      assert Carries(iss, stream + data, seg, |stream|);
      var u := Transmit(t, false, true, psh, data, link);
      hide Honest, Wrap, Carried;
      forall s | s in u.sent ensures !s.fin && Honest(iss, stream + data, s) {
        if s in t.sent {
          LongerStreamHonest(iss, stream, data, s);
        } else {
          CarriesHonest(iss, stream + data, seg, |stream|);
        }
      }
    }
  }

  lemma CarriesHonest(irs: nat, stream: seq<byte>, seg: Segment, o: nat)
    requires Carries(irs, stream, seg, o) && !seg.fin && !seg.syn
    ensures Honest(irs, stream, seg)
  {
  }

  lemma SynHonest(iss: nat, t: Tcb, link: bool)
    requires iss < WRAP && t.sndNxt == iss && t.sent == [] && t.accepted == []
    ensures var u := Transmit(t, true, false, false, [], link);
      u.state == t.state && u.accepted == [] && if link then Sending(iss, u.sndNxt, u.sent, []) else u == t
  {
    if link {
      var seg := Built(t, true, false, false, []);
      assert Transmit(t, true, false, false, [], link).sent == [seg];
      assert Honest(iss, [], seg);
    }
  }

  lemma SendSendsHonestly(iss: nat, t: Tcb, data: seq<byte>, link: bool)
    requires iss < WRAP && t.state != FinWait && SendsHonestly(iss, t)
    ensures SendsHonestly(iss, Send(t, data, link)) && Send(t, data, link).state != FinWait
  {
    hide Sending, Wrap, Transmit, Honest;
    if t.state == Opened {
      SynHonest(iss, t.(state := SynSent), link);
    } else if t.state == Established {
      TransmitHonest(iss, t, data, true, link);
    }
  }

  /** An acknowledgement goes out under the number that follows what was sent. */
  lemma AcknowledgeHonest(iss: nat, t: Tcb, link: bool)
    requires iss < WRAP && Sending(iss, t.sndNxt, t.sent, t.accepted)
    ensures var u := Acknowledge(t, link); u.state == t.state && Sending(iss, u.sndNxt, u.sent, u.accepted)
  {
    TransmitHonest(iss, t, [], false, link);
  }

  /** An open client answers a segment with at most one acknowledgement. */
  lemma ReceiveAnswers(t: Tcb, seg: Segment, link: bool) returns (x: Tcb)
    requires t.state != FinWait
    ensures var u := Receive(t, seg, link);
      || u == t || u.state == Closed
      || (u == Acknowledge(x, link).(state := Established)
          && x.sndNxt == t.sndNxt && x.sent == t.sent && x.accepted == t.accepted
          && (t.state == Established || (t.state == SynSent && seg.syn && seg.ack && seg.ackNum == t.sndNxt)))
  {
    hide Wrap, Acknowledge, ResetRefused;
    x := t;
    if !seg.fin && !seg.rst && t.state == SynSent {
      x := t.(rcvNxt := Wrap(seg.seqNum + 1), sndUna := seg.ackNum);
    } else if !seg.fin && !seg.rst && t.state == Established && seg.data != [] {
      AcknowledgeKeepsState(t, link);
      if seg.seqNum == t.rcvNxt {
        x := t.(rcvNxt := Wrap(t.rcvNxt + |seg.data|), delivered := t.delivered + seg.data);
        AcknowledgeKeepsState(x, link);
      }
    }
  }

  lemma AcknowledgeKeepsState(t: Tcb, link: bool)
    ensures Acknowledge(t, link).state == t.state
  {
  }

  lemma ReceiveSendsHonestly(iss: nat, t: Tcb, seg: Segment, link: bool)
    requires iss < WRAP && t.state != FinWait && SendsHonestly(iss, t)
    requires seg.syn && seg.ack ==> seg.ackNum == Wrap(iss + 1)
    ensures SendsHonestly(iss, Receive(t, seg, link)) && Receive(t, seg, link).state != FinWait
  {
    assert iss != Wrap(iss + 1);
    hide Sending, Wrap, Acknowledge, Receive;
    var x := ReceiveAnswers(t, seg, link);
    if Sending(iss, x.sndNxt, x.sent, x.accepted) {
      AcknowledgeHonest(iss, x, link);
    }
  }

  lemma StepSendsHonestly(iss: nat, t: Tcb, e: Event)
    requires iss < WRAP && t.state != FinWait && SendsHonestly(iss, t)
    requires e.Arrives? && e.seg.syn && e.seg.ack ==> e.seg.ackNum == Wrap(iss + 1)
    ensures SendsHonestly(iss, Step(t, e)) && Step(t, e).state != FinWait
  {
    hide SendsHonestly, Send, Receive;
    match e
    case Sends(data, link) => SendSendsHonestly(iss, t, data, link);
    case Arrives(seg, link) => ReceiveSendsHonestly(iss, t, seg, link);
  }

  /** So a client's own segments satisfy what the receiving half asks of a peer that sends the accepted bytes. */
  lemma {:induction false} RunSendsHonestly(iss: nat, irs: nat, stream: seq<byte>, events: seq<Event>)
    requires iss < WRAP && HonestRun(iss, irs, stream, events)
    ensures var t := Run(Created(iss), events); SendsHonestly(iss, t) && t.state != FinWait
  {
    if events != [] {
      var before, e := events[..|events| - 1], events[|events| - 1];
      assert e in events;
      assert forall d :: d in before ==> d in events;
      RunSendsHonestly(iss, irs, stream, before);
      StepSendsHonestly(iss, Run(Created(iss), before), e);
    }
  }

  // ----- what gets lost on the way out -----

  /** The bytes put on the wire, in order. */
  function Written(sent: seq<Segment>): seq<byte> {
    if sent == [] then [] else Written(sent[..|sent| - 1]) + sent[|sent| - 1].data
  }

  /** How many bytes an event reports as sent and does not send. */
  function CutBy(t: Tcb, e: Event): nat {
    if e.Sends? && e.link && t.state == Established && |e.data| > MAX_DATA then |e.data| - MAX_DATA else 0
  }

  ghost predicate CutsNothing(iss: nat, events: seq<Event>) {
    forall k :: 0 <= k < |events| ==> CutBy(Run(Created(iss), events[..k]), events[k]) == 0
  }

  lemma WrittenMore(sent: seq<Segment>, seg: Segment)
    ensures Written(sent + [seg]) == Written(sent) + seg.data
  {
    assert (sent + [seg])[..|sent|] == sent;
  }

  lemma TransmitWrites(t: Tcb, syn: bool, ack: bool, psh: bool, data: seq<byte>, link: bool)
    ensures var u := Transmit(t, syn, ack, psh, data, link);
      && Written(u.sent) == Written(t.sent) + (if link then Carried(data) else [])
      && u.accepted == t.accepted + (if link then data else [])
  {
    WrittenMore(t.sent, Built(t, syn, ack, psh, data));
  }

  /** Each event adds to the wire what it adds to the accepted bytes, but for the bytes it cuts. */
  lemma StepWrites(t: Tcb, e: Event) returns (more: seq<byte>)
    ensures var u := Step(t, e);
      && u.accepted == t.accepted + more && Written(u.sent) == Written(t.sent) + Carried(more)
      && |more| == |Carried(more)| + CutBy(t, e)
  {
    hide Written, Wrap, ResetRefused;
    more := [];
    match e
    case Sends(data, link) =>
      if link && t.state == Established {
        more := data;
      }
      TransmitWrites(t.(state := SynSent), true, false, false, [], link);
      TransmitWrites(t, false, true, true, data, link);
    case Arrives(seg, link) =>
      ReceiveWrites(t, seg, link);
  }

  lemma ReceiveWrites(t: Tcb, seg: Segment, link: bool)
    ensures Receive(t, seg, link).accepted == t.accepted && Written(Receive(t, seg, link).sent) == Written(t.sent)
  {
    hide Written, Wrap, ResetRefused, Acknowledge;
    AcknowledgeWrites(t, link);
    AcknowledgeWrites(t.(rcvNxt := Wrap(t.rcvNxt + 1)), link);
    AcknowledgeWrites(t.(rcvNxt := Wrap(seg.seqNum + 1), sndUna := seg.ackNum), link);
    AcknowledgeWrites(t.(rcvNxt := Wrap(t.rcvNxt + |seg.data|), delivered := t.delivered + seg.data), link);
  }

  lemma AcknowledgeWrites(t: Tcb, link: bool)
    ensures Acknowledge(t, link).accepted == t.accepted && Written(Acknowledge(t, link).sent) == Written(t.sent)
  {
    TransmitWrites(t, false, true, false, [], link);
  }

  /** The bytes written are no more than those accepted, and are all of them exactly if whole. */
  ghost predicate WholeExactly(written: seq<byte>, accepted: seq<byte>, whole: bool) {
    && |written| <= |accepted|
    && (written == accepted <==> whole)
    && (|written| == |accepted| <==> whole)
  }

  lemma CarriedMore(written: seq<byte>, accepted: seq<byte>, whole: bool, more: seq<byte>, cut: nat)
    requires WholeExactly(written, accepted, whole) && |more| == |Carried(more)| + cut
    ensures WholeExactly(written + Carried(more), accepted + more, whole && cut == 0)
  {
    assert cut == 0 ==> Carried(more) == more;
  }

  /** Over every run the wire carries exactly the accepted bytes if and only if no send had more than 1480 of them. */
  lemma {:induction false} WireCarriesAccepted(iss: nat, events: seq<Event>)
    ensures var t := Run(Created(iss), events);
      WholeExactly(Written(t.sent), t.accepted, CutsNothing(iss, events))
  {
    hide Run, Written, Step, CutsNothing, CutBy, Carried, WholeExactly;
    if events == [] {
      NothingWritten(iss);
    } else {
      var before, e := events[..|events| - 1], events[|events| - 1];
      var t := Run(Created(iss), before);
      WireCarriesAccepted(iss, before);
      var more := StepWrites(t, e);
      RunLast(Created(iss), before, e);
      CutsOneMore(iss, before, e);
      assert events == before + [e];
      CarriedMore(Written(t.sent), t.accepted, CutsNothing(iss, before), more, CutBy(t, e));
    }
  }

  lemma NothingWritten(iss: nat)
    ensures WholeExactly(Written(Run(Created(iss), []).sent), Run(Created(iss), []).accepted, CutsNothing(iss, []))
  {
  }

  lemma RunLast(t: Tcb, before: seq<Event>, e: Event)
    ensures Run(t, before + [e]) == Step(Run(t, before), e)
  {
    assert (before + [e])[..|before|] == before;
  }

  lemma CutsOneMore(iss: nat, before: seq<Event>, e: Event)
    ensures CutsNothing(iss, before + [e]) <==> CutsNothing(iss, before) && CutBy(Run(Created(iss), before), e) == 0
  {
    hide Run, CutBy;
    var all := before + [e];
    assert all[..|before|] == before && all[|before|] == e;
    forall k | 0 <= k < |before| ensures all[..k] == before[..k] && all[k] == before[k] {
    }
  }

  /** A concrete run: 1481 bytes are reported as sent, and 1480 of them are. */
  lemma LongSendLosesByte()
    ensures var t := Tcb(Established, 1, 1, 1, [], [], []);
      var u := Send(t, seq(1481, _ => 7), true);
      |u.accepted| == 1481 && |Written(u.sent)| == 1480
  {
    TransmitWrites(Tcb(Established, 1, 1, 1, [], [], []), false, true, true, seq(1481, _ => 7), true);
  }
}
