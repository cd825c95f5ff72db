/** What the TCP client does deliver: the handshake, and when a schedule brings the whole stream. */
module TcpDelivery {
  import opened Bytes
  import opened TcpProtocol

  // ----- single steps -----

  /** At most one segment went out since t: a bare ACK of everything received up to u, if the link took it. */
  ghost predicate Answered(t: Tcb, u: Tcb, link: bool) {
    && u.sndNxt == t.sndNxt
    && u.sent == t.sent + if link
         then [Segment(t.sndNxt, u.rcvNxt, false, false, false, false, true, 4096, [])] else []
  }

  /** The connection opens exactly on a SYN,ACK for the number after the SYN, and counts from its number. */
  lemma Handshake(t: Tcb, seg: Segment, link: bool)
    requires t.state == SynSent && t.sndNxt < WRAP && !seg.fin && !seg.rst
    ensures var u := Receive(t, seg, link);
      if seg.syn && seg.ack && seg.ackNum == t.sndNxt then
        && u.state == Established && u.rcvNxt == (seg.seqNum + 1) % 0x1_0000_0000
        && u.delivered == t.delivered && Answered(t, u, link)
      else u == t
  {
  }

  /** Data is taken exactly where the receiver stands, and answered wherever it stands. */
  lemma DataTakenExactly(t: Tcb, seg: Segment, link: bool)
    requires t.state == Established && t.sndNxt < WRAP && t.rcvNxt < WRAP && !seg.fin && !seg.rst
    ensures var u := Receive(t, seg, link);
      var taken := if seg.seqNum == t.rcvNxt then seg.data else [];
      && u.state == Established && u.delivered == t.delivered + taken
      && u.rcvNxt == (t.rcvNxt + |taken|) % 0x1_0000_0000
      && if seg.data == [] then u == t else Answered(t, u, link)
  {
  }

  /** A FIN closes the connection, is counted, and answered. */
  lemma FinCloses(t: Tcb, seg: Segment, link: bool)
    requires t.state != Closed && t.sndNxt < WRAP && seg.fin
    ensures var u := Receive(t, seg, link);
      && u.state == Closed && u.delivered == t.delivered
      && u.rcvNxt == (t.rcvNxt + 1) % 0x1_0000_0000 && Answered(t, u, link)
  {
  }

  /** The first send puts out a SYN, later ones the data behind what was sent; in between nothing goes out. */
  lemma SendsExactly(t: Tcb, data: seq<byte>)
    requires t.sndNxt < WRAP
    ensures var u := Send(t, data, true);
      match t.state
      case Opened =>
        && u.state == SynSent && u.sndNxt == (t.sndNxt + 1) % 0x1_0000_0000
        && u.sent == t.sent + [Segment(t.sndNxt, 0, false, true, false, false, false, 4096, [])]
      case Established =>
        && u.state == Established && u.sndNxt == (t.sndNxt + |data|) % 0x1_0000_0000
        && u.sent == t.sent + [Segment(t.sndNxt, t.rcvNxt, false, false, false, true, true, 4096, Carried(data))]
      case _ => u == t
  {
  }

  // ----- a peer that cuts its stream into pieces -----

  function Joined(pieces: seq<seq<byte>>): seq<byte> {
    if pieces == [] then [] else Joined(pieces[..|pieces| - 1]) + pieces[|pieces| - 1]
  }

  /** Where piece k begins. */
  function Offset(pieces: seq<seq<byte>>, k: nat): nat
    requires k <= |pieces|
  {
    |Joined(pieces[..k])|
  }

  ghost predicate IsPiece(irs: nat, pieces: seq<seq<byte>>, seg: Segment, k: nat) {
    && k < |pieces| && seg.data == pieces[k] && seg.seqNum == Wrap(irs + 1 + Offset(pieces, k))
    && !seg.syn && !seg.fin && !seg.rst
  }

  ghost predicate IsSynAck(iss: nat, irs: nat, seg: Segment) {
    && seg.syn && seg.ack && seg.seqNum == irs && seg.ackNum == Wrap(iss + 1) && seg.data == []
    && !seg.fin && !seg.rst
  }

  /**
   * The peer answers the SYN, and sends and resends its stream in the same pieces. The network may lose,
   * repeat and reorder its segments; the client may send in between.
   */
  ghost predicate InPieces(iss: nat, irs: nat, pieces: seq<seq<byte>>, events: seq<Event>) {
    forall n {:trigger events[n]} :: 0 <= n < |events| && events[n].Arrives? ==>
      IsSynAck(iss, irs, events[n].seg) || exists k :: IsPiece(irs, pieces, events[n].seg, k)
  }

  /** What event e must be to come i-th: the first send, the SYN,ACK, then the pieces. */
  ghost predicate Serves(iss: nat, irs: nat, pieces: seq<seq<byte>>, i: nat, e: Event) {
    if i == 0 then e.Sends? && e.link
    else e.Arrives? && if i == 1 then IsSynAck(iss, irs, e.seg) else IsPiece(irs, pieces, e.seg, i - 2)
  }

  /** At these places, one behind the other, the schedule brings the first |at| of what the client needs. */
  ghost predicate Brings(iss: nat, irs: nat, pieces: seq<seq<byte>>, events: seq<Event>, at: seq<nat>) {
    && (forall i :: 0 <= i < |at| ==> at[i] < |events| && Serves(iss, irs, pieces, i, events[at[i]]))
    && (forall i, j :: 0 <= i < j < |at| ==> at[i] < at[j])
    && (|at| > 0 ==> FirstSend(events, at[0]))
  }

  ghost predicate FirstSend(events: seq<Event>, n: nat) {
    n < |events| && events[n].Sends? && forall m :: 0 <= m < n ==> !events[m].Sends?
  }

  ghost predicate Cut(pieces: seq<seq<byte>>) {
    (forall k :: 0 <= k < |pieces| ==> pieces[k] != []) && |Joined(pieces)| < WRAP
  }

  // ----- how far a client is -----

  /** The client has got c of what it needs: the SYN is out, the connection is open, c - 2 pieces are delivered. */
  ghost predicate Stands(iss: nat, irs: nat, pieces: seq<seq<byte>>, t: Tcb, c: nat) {
    && c <= |pieces| + 2
    && match c
       case 0 => t.state == Opened && t.sndNxt == iss && t.delivered == []
       case 1 => t.state == SynSent && t.sndNxt == Wrap(iss + 1) && t.delivered == []
       case _ =>
         && t.state == Established && t.delivered == Joined(pieces[..c - 2])
         && t.rcvNxt == Wrap(irs + 1 + Offset(pieces, c - 2))
  }

  /** The SYN never went out, and the client waits for an answer to it for good. */
  ghost predicate Stuck(iss: nat, t: Tcb) {
    t.state == SynSent && t.sndNxt == iss && t.delivered == []
  }

  lemma JoinedMore(pieces: seq<seq<byte>>, k: nat)
    requires k < |pieces|
    ensures Joined(pieces[..k + 1]) == Joined(pieces[..k]) + pieces[k]
  {
    assert pieces[..k + 1][..k] == pieces[..k];
  }

  lemma {:induction false} OffsetsRise(pieces: seq<seq<byte>>, j: nat, k: nat)
    requires Cut(pieces) && j < k <= |pieces|
    ensures Offset(pieces, j) < Offset(pieces, k)
  {
    JoinedMore(pieces, k - 1);
    if j < k - 1 {
      OffsetsRise(pieces, j, k - 1);
    }
  }

  lemma OffsetSmall(pieces: seq<seq<byte>>, k: nat)
    requires Cut(pieces) && k <= |pieces|
    ensures Offset(pieces, k) < WRAP
  {
    assert pieces[..|pieces|] == pieces;
    if k < |pieces| {
      OffsetsRise(pieces, k, |pieces|);
    }
  }

  /** Pieces that begin at the same sequence number are the same piece. */
  lemma PlacesDiffer(irs: nat, pieces: seq<seq<byte>>, j: nat, k: nat)
    requires Cut(pieces) && j <= |pieces| && k <= |pieces|
    requires Wrap(irs + 1 + Offset(pieces, j)) == Wrap(irs + 1 + Offset(pieces, k))
    ensures j == k
  {
    hide Wrap, Offset, Cut;
    OffsetSmall(pieces, j);
    OffsetSmall(pieces, k);
    WrapInjective(irs, Offset(pieces, j), Offset(pieces, k));
    if j < k {
      OffsetsRise(pieces, j, k);
    } else if k < j {
      OffsetsRise(pieces, k, j);
    }
  }

  /** A piece takes an open client on exactly when it is the next one. */
  lemma PieceStep(iss: nat, irs: nat, pieces: seq<seq<byte>>, t: Tcb, c: nat, seg: Segment, k: nat, link: bool)
    requires Cut(pieces) && iss < WRAP && Stands(iss, irs, pieces, t, c) && IsPiece(irs, pieces, seg, k)
    ensures Stands(iss, irs, pieces, Receive(t, seg, link), if c == k + 2 then c + 1 else c)
  {
    hide Wrap;
    if c >= 2 {
      JoinedMore(pieces, k);
      WrapTwice(irs + 1 + Offset(pieces, k), |pieces[k]|);
      if seg.seqNum == t.rcvNxt {
        PlacesDiffer(irs, pieces, k, c - 2);
      }
    }
  }

  /** Any event takes the client one further exactly when it is the next it needs. */
  lemma StandsStep(iss: nat, irs: nat, pieces: seq<seq<byte>>, t: Tcb, c: nat, e: Event)
    requires Cut(pieces) && iss < WRAP && irs < WRAP && Stands(iss, irs, pieces, t, c)
    requires e.Arrives? ==> IsSynAck(iss, irs, e.seg) || exists k :: IsPiece(irs, pieces, e.seg, k)
    ensures
      if c == 0 && e.Sends? && !e.link then Stuck(iss, Step(t, e))
      else Stands(iss, irs, pieces, Step(t, e),
                  if c < |pieces| + 2 && Serves(iss, irs, pieces, c, e) then c + 1 else c)
  {
    if e.Arrives? && !IsSynAck(iss, irs, e.seg) {
      var k :| IsPiece(irs, pieces, e.seg, k);
      PieceStep(iss, irs, pieces, t, c, e.seg, k, e.link);
      if c >= 2 && IsPiece(irs, pieces, e.seg, c - 2) {
        PlacesDiffer(irs, pieces, k, c - 2);
      }
    } else {
      assert pieces[..0] == [];
    }
  }

  lemma StuckStep(iss: nat, irs: nat, pieces: seq<seq<byte>>, t: Tcb, e: Event)
    requires iss < WRAP && Stuck(iss, t)
    requires e.Arrives? ==> IsSynAck(iss, irs, e.seg) || exists k :: IsPiece(irs, pieces, e.seg, k)
    ensures Step(t, e) == t
  {
    assert iss != Wrap(iss + 1);
  }

  // ----- whole runs -----

  /** The first send was refused by the link. */
  ghost predicate SynLost(events: seq<Event>) {
    exists n: nat :: FirstSend(events, n) && !events[n].link
  }

  /** c is the most of what the client needs that the schedule brings. */
  ghost predicate Most(iss: nat, irs: nat, pieces: seq<seq<byte>>, events: seq<Event>, c: nat) {
    && (exists at :: |at| == c && Brings(iss, irs, pieces, events, at))
    && (forall at :: Brings(iss, irs, pieces, events, at) && |at| <= |pieces| + 2 ==> |at| <= c)
  }

  /** A chain in a longer schedule is one of before, but for the last link. */
  lemma BringsBefore(
    iss: nat, irs: nat, pieces: seq<seq<byte>>, before: seq<Event>, e: Event, at: seq<nat>)
    requires Brings(iss, irs, pieces, before + [e], at)
    ensures
      || Brings(iss, irs, pieces, before, at)
      || (|at| > 0 && Brings(iss, irs, pieces, before, at[..|at| - 1]) && Serves(iss, irs, pieces, |at| - 1, e))
  {
    var all := before + [e];
    forall n | 0 <= n < |before| ensures all[n] == before[n] {
    }
    hide Serves;
    if |at| > 0 && at[|at| - 1] == |before| {
      var rest := at[..|at| - 1];
      forall i | 0 <= i < |rest| ensures rest[i] < |before| && Serves(iss, irs, pieces, i, before[rest[i]]) {
        assert at[i] < at[|at| - 1];
      }
    } else {
      forall i | 0 <= i < |at| ensures at[i] < |before| {
        assert i < |at| - 1 ==> at[i] < at[|at| - 1];
      }
    }
  }

  lemma BringsLonger(iss: nat, irs: nat, pieces: seq<seq<byte>>, before: seq<Event>, e: Event, at: seq<nat>)
    requires Brings(iss, irs, pieces, before, at)
    ensures Brings(iss, irs, pieces, before + [e], at)
    ensures Serves(iss, irs, pieces, |at|, e) && (at == [] ==> forall n :: 0 <= n < |before| ==> !before[n].Sends?) ==>
      Brings(iss, irs, pieces, before + [e], at + [|before|])
  {
    ServesSend(iss, irs, pieces, |at|, e);
    hide Serves;
    var all := before + [e];
    forall n | 0 <= n < |before| ensures all[n] == before[n] {
    }
  }

  lemma MostLonger(iss: nat, irs: nat, pieces: seq<seq<byte>>, before: seq<Event>, e: Event, c: nat)
    requires Most(iss, irs, pieces, before, c) && c <= |pieces| + 2
    requires c == 0 ==> forall n :: 0 <= n < |before| ==> !before[n].Sends?
    ensures var more := c < |pieces| + 2 && Serves(iss, irs, pieces, c, e);
      Most(iss, irs, pieces, before + [e], if more then c + 1 else c)
  {
    hide Serves, Brings;
    var more := c < |pieces| + 2 && Serves(iss, irs, pieces, c, e);
    var at: seq<nat> :| |at| == c && Brings(iss, irs, pieces, before, at);
    BringsLonger(iss, irs, pieces, before, e, at);
    if more {
      assert |at + [|before|]| == c + 1 && Brings(iss, irs, pieces, before + [e], at + [|before|]);
    }
    forall at | Brings(iss, irs, pieces, before + [e], at) && |at| <= |pieces| + 2
      ensures |at| <= if more then c + 1 else c
    {
      BringsBefore(iss, irs, pieces, before, e, at);
    }
  }

  lemma NothingBrought(iss: nat, irs: nat, pieces: seq<seq<byte>>)
    ensures Most(iss, irs, pieces, [], 0) && !SynLost([]) && Stands(iss, irs, pieces, Run(Created(iss), []), 0)
  {
    assert Brings(iss, irs, pieces, [], []);
  }

  lemma SynLostLater(before: seq<Event>, e: Event)
    requires SynLost(before)
    ensures SynLost(before + [e])
  {
    var n: nat :| FirstSend(before, n) && !before[n].link;
    var all := before + [e];
    assert all[n] == before[n] && forall m :: 0 <= m < n ==> all[m] == before[m];
    assert FirstSend(all, n);
  }

  lemma SynLostFirst(before: seq<Event>, e: Event)
    requires !SynLost(before)
    ensures SynLost(before + [e]) <==> e.Sends? && !e.link && forall n :: 0 <= n < |before| ==> !before[n].Sends?
  {
    var all := before + [e];
    assert all[|before|] == e && forall n :: 0 <= n < |before| ==> all[n] == before[n];
    forall n: nat | n < |before| && FirstSend(all, n) ensures FirstSend(before, n) {
    }
    if e.Sends? && !e.link && forall n :: 0 <= n < |before| ==> !before[n].Sends? {
      assert FirstSend(all, |before|);
    }
  }

  /** Unless its SYN was lost, a client stands as far as the schedule brings it. */
  lemma {:induction false} RunStands(iss: nat, irs: nat, pieces: seq<seq<byte>>, events: seq<Event>) returns (c: nat)
    requires Cut(pieces) && iss < WRAP && irs < WRAP && InPieces(iss, irs, pieces, events)
    ensures var t := Run(Created(iss), events);
      if SynLost(events) then Stuck(iss, t)
      else Stands(iss, irs, pieces, t, c) && Most(iss, irs, pieces, events, c)
    ensures c == 0 || SynLost(events) || exists n :: 0 <= n < |events| && events[n].Sends?
    ensures c == 0 && !SynLost(events) ==> forall n :: 0 <= n < |events| ==> !events[n].Sends?
  {
    hide Run, Step, Stands, Stuck, Most, SynLost, Serves, IsPiece, IsSynAck, Cut;
    c := 0;
    if events == [] {
      NothingBrought(iss, irs, pieces);
    } else {
      var before, e := events[..|events| - 1], events[|events| - 1];
      var t := Run(Created(iss), before);
      c := RunStands(iss, irs, pieces, before);
      RunLast(Created(iss), before, e);
      assert events == before + [e];
      if SynLost(before) {
        StuckStep(iss, irs, pieces, t, e);
        SynLostLater(before, e);
      } else {
        SynLostFirst(before, e);
        StandsStep(iss, irs, pieces, t, c, e);
        MostSmall(iss, irs, pieces, t, c);
        MostLonger(iss, irs, pieces, before, e, c);
        ServesSend(iss, irs, pieces, c, e);
        if c < |pieces| + 2 && Serves(iss, irs, pieces, c, e) {
          c := c + 1;
        }
      }
    }
  }

  lemma MostSmall(iss: nat, irs: nat, pieces: seq<seq<byte>>, t: Tcb, c: nat)
    requires Stands(iss, irs, pieces, t, c)
    ensures c <= |pieces| + 2
  {
  }

  lemma ServesSend(iss: nat, irs: nat, pieces: seq<seq<byte>>, c: nat, e: Event)
    ensures c == 0 ==> (Serves(iss, irs, pieces, c, e) <==> e.Sends? && e.link)
  {
  }

  lemma SameFirst(events: seq<Event>, m: nat, n: nat)
    requires FirstSend(events, m) && FirstSend(events, n)
    ensures m == n
  {
  }

  lemma LostBringsNothing(iss: nat, irs: nat, pieces: seq<seq<byte>>, events: seq<Event>, at: seq<nat>)
    requires SynLost(events) && Brings(iss, irs, pieces, events, at)
    ensures at == []
  {
    var n: nat :| FirstSend(events, n) && !events[n].link;
    if at != [] {
      SameFirst(events, n, at[0]);
    }
  }

  /**
   * While the peer keeps to its pieces, the client has the whole stream if and only if the schedule brings
   * a first send that the link takes, then the SYN,ACK, then every piece in order, whatever comes between.
   */
  lemma StreamArrivesExactly(iss: nat, irs: nat, pieces: seq<seq<byte>>, events: seq<Event>)
    requires pieces != [] && Cut(pieces) && iss < WRAP && irs < WRAP && InPieces(iss, irs, pieces, events)
    ensures Run(Created(iss), events).delivered == Joined(pieces) <==>
              exists at :: |at| == |pieces| + 2 && Brings(iss, irs, pieces, events, at)
  {
    var c := RunStands(iss, irs, pieces, events);
    var t := Run(Created(iss), events);
    WholeExactly(iss, irs, pieces, t, c);
    hide Run, Brings, SynLost, Stands, Stuck, Joined;
    if SynLost(events) {
      forall at | Brings(iss, irs, pieces, events, at) ensures at == [] {
        LostBringsNothing(iss, irs, pieces, events, at);
      }
    }
  }

  /** A client has the whole stream exactly when it needs nothing more. */
  lemma WholeExactly(iss: nat, irs: nat, pieces: seq<seq<byte>>, t: Tcb, c: nat)
    requires pieces != [] && Cut(pieces)
    ensures Stands(iss, irs, pieces, t, c) ==> (t.delivered == Joined(pieces) <==> c == |pieces| + 2)
    ensures Stuck(iss, t) ==> t.delivered != Joined(pieces)
  {
    hide Joined, Cut, Wrap;
    var n := |pieces|;
    assert pieces[..n] == pieces;
    OffsetsRise(pieces, 0, n);
    if 2 <= c < n + 2 {
      OffsetsRise(pieces, c - 2, n);
    }
  }

  /** What has arrived stays, whatever an honest peer sends afterwards, its FIN and a reset included. */
  lemma {:induction false} StreamStays(
    iss: nat, irs: nat, stream: seq<byte>, events: seq<Event>, rest: seq<Event>)
    requires |stream| < WRAP && irs < WRAP && HonestRun(iss, irs, stream, events + rest)
    requires Run(Created(iss), events).delivered == stream
    ensures Run(Created(iss), events + rest).delivered == stream
  {
    hide Run;
    if rest == [] {
      assert events + rest == events;
    } else {
      var before, e := events + rest[..|rest| - 1], rest[|rest| - 1];
      assert events + rest == before + [e];
      assert forall d :: d in before ==> d in events + rest;
      StreamStays(iss, irs, stream, events, rest[..|rest| - 1]);
      DeliveredIsPrefix(iss, irs, stream, before, e);
    }
  }

  /**
   * Why the peer has to keep to its pieces: data that does not begin where the client stands is dropped
   * whole. A peer that resends [1, 2] and 3 as 1 and [2, 3] brings every byte in order, and loses the last.
   */
  lemma NewPiecesLoseByte(link: bool)
    ensures var stream: seq<byte> := [1, 2, 3];
      var a, b := Segment(1, 0, false, false, false, true, true, 4096, [1, 2]),
                  Segment(1, 0, false, false, false, true, true, 4096, [1]);
      var c := Segment(2, 0, false, false, false, true, true, 4096, [2, 3]);
      && Honest(0, stream, a) && Honest(0, stream, b) && Honest(0, stream, c)
      && forall t: Tcb :: t.state == Established && t.rcvNxt == 1 && t.delivered == [] ==>
           Receive(Receive(Receive(t, a, link), b, link), c, link).delivered == [1, 2]
  {
    var stream: seq<byte> := [1, 2, 3];
    assert Carries(0, stream, Segment(1, 0, false, false, false, true, true, 4096, [1, 2]), 0);
    assert Carries(0, stream, Segment(1, 0, false, false, false, true, true, 4096, [1]), 0);
    assert Carries(0, stream, Segment(2, 0, false, false, false, true, true, 4096, [2, 3]), 1);
  }
}
