/** The TCP client's control block, updated in place per segment and per send. */
module TcpClient {
  import opened Bytes
  import opened TcpProtocol

  class Connection {
    var state: State
    var sndNxt: nat
    var sndUna: nat
    var rcvNxt: nat
    var sent: seq<Segment>
    var accepted: seq<byte>
    var delivered: seq<byte>

    function View(): Tcb
      reads this
    {
      Tcb(state, sndNxt, sndUna, rcvNxt, sent, accepted, delivered)
    }

    constructor (iss: nat)
      requires iss < WRAP
      ensures View() == Created(iss)
    {
      state := Opened;
      sndNxt, sndUna, rcvNxt := iss, iss, 0;
      sent, accepted, delivered := [], [], [];
    }

    /** Hands a segment to the link, which may refuse it, and which carries its first 1480 bytes of data. */
    method IpSend(seg: Segment, link: bool) returns (ok: bool)
      modifies this`sent
      ensures ok == link && sent == if link then old(sent) + [seg.(data := Carried(seg.data))] else old(sent)
    {
      if !link {
        return false;
      }
      var data := seg.data;
      if |data| > MAX_DATA {
        data := data[..MAX_DATA];
      }
      sent := sent + [seg.(data := data)];
      return true;
    }

    /** Builds a segment and sends it. */
    method SendWithFlags(syn: bool, ack: bool, psh: bool, data: seq<byte>, link: bool) returns (ok: bool)
      modifies this`sent, this`sndNxt, this`accepted
      requires syn || ack
      requires sndNxt < WRAP
      ensures ok == link && View() == Transmit(old(View()), syn, ack, psh, data, link)
    {
      var header := Segment(sndNxt, 0, false, syn, false, psh, ack, WINDOW, data);
      if ack {
        header := header.(ackNum := rcvNxt);
      }
      ok := IpSend(header, link);
      if ok {
        accepted := accepted + data;
        if |data| > 0 {
          sndNxt := Wrap(sndNxt + |data|);
        }
        if syn {
          WrapTwice(old(sndNxt) + |data|, 1);
          sndNxt := Wrap(sndNxt + 1);
        }
      }
    }

    /** Opens the connection on the first call; afterwards sends data once it is established. */
    method Send(data: seq<byte>, link: bool) returns (ok: bool)
      requires sndNxt < WRAP
      modifies this
      ensures View() == TcpProtocol.Send(old(View()), data, link)
      ensures ok <==> link && (old(state) == Opened || old(state) == Established)
    {
      match state
      case Opened =>
        state := SynSent;
        ok := SendWithFlags(true, false, false, [], link);
      case Established =>
        ok := SendWithFlags(false, true, true, data, link);
      case _ =>
        ok := false;
    }

    /** One incoming segment; a closed block is gone and its segments are ignored. */
    method Receive(seg: Segment, link: bool)
      requires sndNxt < WRAP
      modifies this
      ensures View() == TcpProtocol.Receive(old(View()), seg, link)
    {
      if state == Closed {
        return;
      }
      if seg.fin {
        rcvNxt := Wrap(rcvNxt + 1);
        var _ := SendWithFlags(false, true, false, [], link);
        state := Closed;
        return;
      }
      if seg.rst {
        if seg.seqNum < rcvNxt || seg.seqNum >= Wrap(rcvNxt + seg.window) {
          return;
        }
        state := Closed;
        return;
      }
      if state == SynSent {
        if !seg.syn || !seg.ack {
          return;
        }
        if seg.ackNum != sndNxt {
          return;
        }
        rcvNxt := Wrap(seg.seqNum + 1);
        sndUna := seg.ackNum;
        var _ := SendWithFlags(false, true, false, [], link);
        state := Established;
        return;
      }
      if state == Established {
        if |seg.data| > 0 {
          if seg.seqNum != rcvNxt {
            var _ := SendWithFlags(false, true, false, [], link);
            return;
          }
          rcvNxt := Wrap(rcvNxt + |seg.data|);
          delivered := delivered + seg.data;
          var _ := SendWithFlags(false, true, false, [], link);
          return;
        }
      }
    }
  }
}
