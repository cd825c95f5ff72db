/**
 * One NVMe queue pair: the driver's polling loop against a controller that fetches submitted commands
 * and posts completions at any moment (NVM Express Base Specification 1.4, section 4.6).
 */
module Nvme {

  /** The upper half of command dword 0 carries the command identifier. */
  datatype Command = Command(cdw0: nat, body: seq<nat>) {
    function Cid(): nat { cdw0 / 0x10000 }
  }

  /** Bit 0 of the status word is the phase tag, the other bits the status code. */
  datatype Completion = Completion(cid: nat, status: nat) {
    function Phase(): nat { status % 2 }
    function StatusCode(): nat { (status / 2) % 0x8000 }
  }

  datatype Outcome = TimedOut | Completed(entry: Completion)

  const SPINS := 5000000

  /** A choice the hardware makes. */
  method Any() returns (r: nat) {
    r := *;
  }

  // ----- ring arithmetic: the j-th entry ever posted sits in Slot(j) with PhaseOf(j) -----

  function Slot(depth: nat, j: nat): (r: nat)
    requires depth > 0
    ensures r < depth
  {
    if j < depth then j else Slot(depth, j - depth)
  }

  /** The tag is 1 on the first pass over the ring and flips on every later one. */
  function PhaseOf(depth: nat, j: nat): (r: nat)
    requires depth > 0
    ensures r < 2
  {
    if j < depth then 1 else 1 - PhaseOf(depth, j - depth)
  }

  lemma {:induction false} SlotNext(depth: nat, j: nat)
    requires depth > 0
    ensures Slot(depth, j + 1) == if Slot(depth, j) + 1 == depth then 0 else Slot(depth, j) + 1
    ensures PhaseOf(depth, j + 1) == if Slot(depth, j + 1) == 0 then 1 - PhaseOf(depth, j) else PhaseOf(depth, j)
  {
    if j >= depth {
      SlotNext(depth, j - depth);
    }
  }

  lemma {:induction false} SlotDistinct(depth: nat, i: nat, j: nat)
    requires i < j < i + depth
    ensures Slot(depth, i) != Slot(depth, j)
  {
    if depth <= i {
      SlotDistinct(depth, i - depth, j - depth);
    }
  }

  /** The index after i, going round. */
  function Advance(depth: nat, i: nat): (r: nat)
    requires i < depth
    ensures r == if i + 1 == depth then 0 else i + 1
  {
    (i + 1) % depth
  }

  /** The completion ring after the entries of posted, the latest depth of which are still readable. */
  ghost predicate RingHolds(depth: nat, cq: seq<Completion>, posted: seq<Completion>)
    requires depth > 0
  {
    && |cq| == depth
    && (forall j {:trigger posted[j]} :: 0 <= j < |posted| && |posted| <= j + depth ==> cq[Slot(depth, j)] == posted[j])
    && (forall j {:trigger cq[j]} :: |posted| <= j < depth ==> cq[j].Phase() == 0)
    && (forall j {:trigger posted[j]} :: 0 <= j < |posted| ==> posted[j].Phase() == PhaseOf(depth, j))
  }

  lemma RingPost(depth: nat, cq: seq<Completion>, posted: seq<Completion>, c: Completion)
    requires depth > 0 && RingHolds(depth, cq, posted) && c.Phase() == PhaseOf(depth, |posted|)
    ensures RingHolds(depth, cq[Slot(depth, |posted|) := c], posted + [c])
  {
    forall j | 0 <= j < |posted| && |posted| + 1 <= j + depth ensures Slot(depth, j) != Slot(depth, |posted|) {
      SlotDistinct(depth, j, |posted|);
    }
  }

  /** The phase tag under the driver's head tells exactly whether the next entry has been posted. */
  lemma PhaseTellsPosted(depth: nat, cq: seq<Completion>, posted: seq<Completion>, consumed: nat)
    requires depth > 0 && RingHolds(depth, cq, posted) && consumed <= |posted| < consumed + depth
    ensures |cq| == depth
    ensures cq[Slot(depth, consumed)].Phase() == PhaseOf(depth, consumed) <==> consumed < |posted|
    ensures consumed < |posted| ==> cq[Slot(depth, consumed)] == posted[consumed]
  {
    if consumed < |posted| {
      assert posted[consumed].Phase() == PhaseOf(depth, consumed);
    } else if depth <= consumed {
      assert posted[consumed - depth].Phase() == PhaseOf(depth, consumed - depth);
    }
  }

  // ----- the controller -----

  /**
   * The memory and registers both sides share, and the controller's own state. posted is the history
   * of everything it has written to the completion ring.
   */
  datatype Hardware = Hardware(depth: nat, sq: seq<Command>, cq: seq<Completion>, sqDoorbell: nat, cqDoorbell: nat,
                               fetchHead: nat, fetched: multiset<nat>, postTail: nat, postPhase: nat,
                               posted: seq<Completion>)

  /** announced is how many consumed entries the head doorbell has told the controller about. */
  ghost predicate HardwareInv(h: Hardware, announced: nat) {
    && h.depth >= 2 && |h.sq| == h.depth
    && h.sqDoorbell < h.depth && h.fetchHead < h.depth
    && RingHolds(h.depth, h.cq, h.posted)
    && announced <= |h.posted| < announced + h.depth
    && h.cqDoorbell == Slot(h.depth, announced)
    && h.postTail == Slot(h.depth, |h.posted|) && h.postPhase == PhaseOf(h.depth, |h.posted|)
  }

  /** Takes the next submitted command, if the tail doorbell shows one. */
  function Fetch(h: Hardware): Hardware
    requires h.fetchHead < h.depth == |h.sq|
  {
    if h.fetchHead == h.sqDoorbell then h
    else h.(fetched := h.fetched + multiset{h.sq[h.fetchHead].Cid()}, fetchHead := Advance(h.depth, h.fetchHead))
  }

  /** Completes some fetched command, unless the ring is full as far as the head doorbell tells. */
  function Post(h: Hardware, cid: nat, status: nat): Hardware
    requires h.postTail < h.depth == |h.cq| && h.postPhase < 2
  {
    if cid !in h.fetched || Advance(h.depth, h.postTail) == h.cqDoorbell then h
    else
      var c := Completion(cid, 2 * (status / 2) + h.postPhase);
      var tail := Advance(h.depth, h.postTail);
      h.(fetched := h.fetched - multiset{cid}, cq := h.cq[h.postTail := c], posted := h.posted + [c],
         postTail := tail, postPhase := if tail == 0 then 1 - h.postPhase else h.postPhase)
  }

  // ----- what the controller may do -----

  datatype Act = DoFetch | DoPost(cid: nat, status: nat)

  predicate Shaped(h: Hardware) {
    h.fetchHead < h.depth == |h.sq| && h.postTail < h.depth == |h.cq| && h.postPhase < 2 && h.sqDoorbell < h.depth
  }

  function Do(h: Hardware, a: Act): (r: Hardware)
    requires Shaped(h)
    ensures Shaped(r)
  {
    match a
    case DoFetch => Fetch(h)
    case DoPost(cid, status) => Post(h, cid, status)
  }

  function Behaves(h: Hardware, acts: seq<Act>): (r: Hardware)
    requires Shaped(h)
    ensures Shaped(r)
    decreases |acts|
  {
    if acts == [] then h else Behaves(Do(h, acts[0]), acts[1..])
  }

  lemma {:induction false} BehavesOn(h: Hardware, acts: seq<Act>, more: seq<Act>)
    requires Shaped(h)
    ensures Behaves(h, acts + more) == Behaves(Behaves(h, acts), more)
    decreases |acts|
  {
    if acts == [] {
      assert acts + more == more;
    } else {
      assert (acts + more)[1..] == acts[1..] + more;
      BehavesOn(Do(h, acts[0]), acts[1..], more);
    }
  }

  lemma OneAct(h: Hardware, a: Act)
    requires Shaped(h)
    ensures Behaves(h, [a]) == Do(h, a)
  {
    assert [a][1..] == [];
  }

  lemma NoAct(h: Hardware)
    requires Shaped(h)
    ensures Behaves(h, []) == h
  {
  }

  lemma RingLength(h: Hardware, announced: nat)
    requires HardwareInv(h, announced)
    ensures Shaped(h)
  {
  }

  /** Some behaviour of the controller makes entry the next one the driver consumes. */
  ghost predicate Answers(h: Hardware, consumed: nat, entry: Completion)
    requires Shaped(h)
  {
    exists acts :: AnsweredBy(h, consumed, entry, acts)
  }

  predicate AnsweredBy(h: Hardware, consumed: nat, entry: Completion, acts: seq<Act>)
    requires Shaped(h)
  {
    var posted := Behaves(h, acts).posted;
    consumed < |posted| && posted[consumed] == entry
  }

  lemma AnswerIs(h: Hardware, consumed: nat, acts: seq<Act>)
    requires Shaped(h) && consumed < |Behaves(h, acts).posted|
    ensures Answers(h, consumed, Behaves(h, acts).posted[consumed])
  {
    assert AnsweredBy(h, consumed, Behaves(h, acts).posted[consumed], acts);
  }

  /** The identifiers of the commands between slot i and the doorbell. */
  function Pending(h: Hardware, i: nat): seq<nat>
    requires Shaped(h) && i < h.depth
    decreases if i <= h.sqDoorbell then h.sqDoorbell - i else h.sqDoorbell + h.depth - i
  {
    if i == h.sqDoorbell then [] else [h.sq[i].Cid()] + Pending(h, Advance(h.depth, i))
  }

  /** Every answer that may come next carries this identifier. */
  ghost predicate OnlyAnswers(h: Hardware, consumed: nat, cid: nat)
    requires Shaped(h)
  {
    if consumed < |h.posted| then h.posted[consumed].cid == cid
    else (forall c :: c in h.fetched ==> c == cid) && forall c :: c in Pending(h, h.fetchHead) ==> c == cid
  }

  lemma PendingSame(h: Hardware, r: Hardware, i: nat)
    requires Shaped(h) && Shaped(r) && r.depth == h.depth && r.sq == h.sq && r.sqDoorbell == h.sqDoorbell && i < h.depth
    ensures Pending(r, i) == Pending(h, i)
    decreases if i <= h.sqDoorbell then h.sqDoorbell - i else h.sqDoorbell + h.depth - i
  {
    if i != h.sqDoorbell {
      PendingSame(h, r, Advance(h.depth, i));
    }
  }

  lemma DoKeepsOnly(h: Hardware, consumed: nat, cid: nat, a: Act)
    requires Shaped(h) && consumed <= |h.posted| && OnlyAnswers(h, consumed, cid)
    ensures consumed <= |Do(h, a).posted| && OnlyAnswers(Do(h, a), consumed, cid)
  {
    var r := Do(h, a);
    PendingSame(h, r, r.fetchHead);
    if a == DoFetch && h.fetchHead != h.sqDoorbell {
      var c, rest := h.sq[h.fetchHead].Cid(), Pending(h, r.fetchHead);
      assert Pending(h, h.fetchHead) == [c] + rest;
      assert c in [c] + rest && forall d :: d in rest ==> d in [c] + rest;
    }
  }

  lemma {:induction false} BehavesKeepsOnly(h: Hardware, consumed: nat, cid: nat, acts: seq<Act>)
    requires Shaped(h) && consumed <= |h.posted| && OnlyAnswers(h, consumed, cid)
    ensures OnlyAnswers(Behaves(h, acts), consumed, cid)
    decreases |acts|
  {
    if acts != [] {
      DoKeepsOnly(h, consumed, cid, acts[0]);
      BehavesKeepsOnly(Do(h, acts[0]), consumed, cid, acts[1..]);
    }
  }

  /** A command fetched, or still to be fetched, may be the next one answered. */
  lemma {:induction false} MayAnswer(h: Hardware, consumed: nat, c: nat) returns (acts: seq<Act>, entry: Completion)
    requires Shaped(h) && h.depth >= 2 && |h.posted| == consumed && h.cqDoorbell == h.postTail
    requires c in h.fetched || c in Pending(h, h.fetchHead)
    ensures entry.cid == c && AnsweredBy(h, consumed, entry, acts)
    decreases |Pending(h, h.fetchHead)|
  {
    if c in h.fetched {
      acts := [DoPost(c, 0)];
      OneAct(h, acts[0]);
      entry := Behaves(h, acts).posted[consumed];
    } else {
      var r := Fetch(h);
      PendingSame(h, r, r.fetchHead);
      acts, entry := MayAnswer(r, consumed, c);
      assert ([DoFetch] + acts)[1..] == acts;
      acts := [DoFetch] + acts;
    }
  }

  /** Over every behaviour the next answer carries this identifier if and only if nothing else can be answered. */
  lemma AnswersExactly(h: Hardware, consumed: nat, cid: nat)
    requires HardwareInv(h, consumed) && Shaped(h)
    ensures (forall entry {:trigger Answers(h, consumed, entry)} :: Answers(h, consumed, entry) ==> entry.cid == cid)
              <==> OnlyAnswers(h, consumed, cid)
  {
    if OnlyAnswers(h, consumed, cid) {
      forall entry | Answers(h, consumed, entry) ensures entry.cid == cid {
        var acts :| AnsweredBy(h, consumed, entry, acts);
        BehavesKeepsOnly(h, consumed, cid, acts);
      }
    } else if consumed < |h.posted| {
      assert AnsweredBy(h, consumed, h.posted[consumed], []);
      assert Answers(h, consumed, h.posted[consumed]);
    } else {
      var c :| (c in h.fetched || c in Pending(h, h.fetchHead)) && c != cid;
      var acts, entry := MayAnswer(h, consumed, c);
      assert Answers(h, consumed, entry);
    }
  }

  // ----- submitting -----

  /** The command under this identifier. */
  function Tagged(cmd: Command, cid: nat): Command {
    cmd.(cdw0 := cmd.cdw0 % 0x10000 + cid * 0x10000)
  }

  /** It is the same command: opcode, flags and everything behind dword 0 stay. */
  lemma TaggedKeeps(cmd: Command, cid: nat)
    ensures var tagged := Tagged(cmd, cid);
      tagged.Cid() == cid && tagged.cdw0 % 0x10000 == cmd.cdw0 % 0x10000 && tagged.body == cmd.body
  {
  }

  /** The queue after a command was written to its tail and the doorbell rang. */
  function Submitted(h: Hardware, cmd: Command): (r: Hardware)
    requires Shaped(h)
    ensures Shaped(r)
  {
    h.(sq := h.sq[h.sqDoorbell := cmd], sqDoorbell := Advance(h.depth, h.sqDoorbell))
  }

  /** With a slot to spare the command joins those pending; without one the ring looks empty and all are lost. */
  lemma SubmittedPends(h: Hardware, cmd: Command, i: nat)
    requires Shaped(h) && i < h.depth && h.depth >= 2 && Advance(h.depth, h.sqDoorbell) != i
    ensures Pending(Submitted(h, cmd), i) == Pending(h, i) + [cmd.Cid()]
    decreases if i <= h.sqDoorbell then h.sqDoorbell - i else h.sqDoorbell + h.depth - i
  {
    var r := Submitted(h, cmd);
    if i == h.sqDoorbell {
      assert Pending(r, r.sqDoorbell) == [];
    } else {
      SubmittedPends(h, cmd, Advance(h.depth, i));
    }
  }

  lemma FullRingLoses(h: Hardware, cmd: Command)
    requires Shaped(h) && Advance(h.depth, h.sqDoorbell) == h.fetchHead
    ensures Pending(Submitted(h, cmd), h.fetchHead) == []
  {
  }

  /** The identifiers of earlier commands whose answers have not been consumed. */
  ghost predicate Outstanding(h: Hardware, consumed: nat, c: nat)
    requires Shaped(h)
  {
    c in h.fetched || c in Pending(h, h.fetchHead) || exists j :: consumed <= j < |h.posted| && h.posted[j].cid == c
  }

  /**
   * The next answer is that of the command just submitted, whatever the controller does, if and only if
   * the queue was quiet; as long as no earlier command has the same identifier, which takes 65536 of them,
   * and the ring has room.
   */
  lemma MatchExactlyWhenQuiet(h: Hardware, consumed: nat, cmd: Command)
    requires HardwareInv(h, consumed) && Shaped(h)
    requires Advance(h.depth, h.sqDoorbell) != h.fetchHead && !Outstanding(h, consumed, cmd.Cid())
    ensures (forall entry {:trigger Answers(Submitted(h, cmd), consumed, entry)} ::
               Answers(Submitted(h, cmd), consumed, entry) ==> entry.cid == cmd.Cid())
              <==> Idle(h, h.sqDoorbell, consumed)
  {
    var r := Submitted(h, cmd);
    SubmittedPends(h, cmd, h.fetchHead);
    AnswersExactly(r, consumed, cmd.Cid());
    if consumed < |h.posted| {
      assert h.posted[consumed].cid != cmd.Cid();
    } else if h.fetched == multiset{} && h.fetchHead != h.sqDoorbell {
      var c := h.sq[h.fetchHead].Cid();
      assert c == Pending(h, h.fetchHead)[0];
      assert c in Pending(r, h.fetchHead);
    } else if h.fetched != multiset{} {
      var c :| c in h.fetched;
    }
  }

  /** A late answer: the first command is fetched and times out, and the second is given the first one's answer. */
  lemma LateAnswerTaken(h: Hardware, consumed: nat, first: Command, second: Command)
    requires HardwareInv(h, consumed) && Shaped(h) && Idle(h, h.sqDoorbell, consumed)
    ensures var late := Behaves(Submitted(h, first), [DoFetch]);
      exists entry :: Answers(Submitted(late, second), consumed, entry) && entry.cid == first.Cid()
  {
    var one := Submitted(h, first);
    OneAct(one, DoFetch);
    var acts, entry := MayAnswer(Submitted(Behaves(one, [DoFetch]), second), consumed, first.Cid());
    assert Answers(Submitted(Behaves(one, [DoFetch]), second), consumed, entry);
  }

  lemma TagIs(status: nat, phase: nat)
    requires phase < 2
    ensures (2 * (status / 2) + phase) % 2 == phase
  {
  }

  /** Unless the next slot is the announced one, one more entry still fits. */
  lemma {:induction false} NotFull(depth: nat, announced: nat, posted: nat)
    requires announced <= posted < announced + depth
    ensures Advance(depth, Slot(depth, posted)) != Slot(depth, announced) ==> posted + 1 < announced + depth
  {
    SlotNext(depth, posted);
    if posted + 1 == announced + depth {
      assert Slot(depth, announced + depth) == Slot(depth, announced);
    }
  }

  lemma PostKeepsInv(h: Hardware, announced: nat, cid: nat, status: nat)
    requires HardwareInv(h, announced)
    ensures HardwareInv(Post(h, cid, status), announced)
  {
    assert |h.cq| == h.depth;
    hide RingHolds;
    if Post(h, cid, status) != h {
      var c := Completion(cid, 2 * (status / 2) + h.postPhase);
      TagIs(status, h.postPhase);
      RingPost(h.depth, h.cq, h.posted, c);
      SlotNext(h.depth, |h.posted|);
      NotFull(h.depth, announced, |h.posted|);
    }
  }

  /** Nothing is submitted, in execution, or waiting to be consumed. */
  ghost predicate Idle(h: Hardware, sqTail: nat, consumed: nat) {
    h.fetchHead == h.sqDoorbell == sqTail && h.fetched == multiset{} && |h.posted| == consumed
  }

  /** Exactly one command, the one in slot at with identifier cid, is on its way. */
  ghost predicate OneInFlight(h: Hardware, at: nat, cid: nat, consumed: nat) {
    && at < |h.sq| == h.depth && h.sqDoorbell == Advance(h.depth, at) && h.depth >= 2
    && (|| (h.fetchHead == at && h.sq[at].Cid() == cid && h.fetched == multiset{} && |h.posted| == consumed)
        || (h.fetchHead == h.sqDoorbell && h.fetched == multiset{cid} && |h.posted| == consumed)
        || (h.fetchHead == h.sqDoorbell && h.fetched == multiset{} && |h.posted| == consumed + 1
            && h.posted[consumed].cid == cid))
  }

  lemma InFlightAnswered(h: Hardware, at: nat, cid: nat, consumed: nat)
    requires OneInFlight(h, at, cid, consumed) && consumed < |h.posted|
    ensures h.posted[consumed].cid == cid && Idle(h, h.sqDoorbell, consumed + 1)
  {
  }

  /** The answers are the posted entries from first on, each under the identifier of its command. */
  ghost predicate Matched(entries: seq<Completion>, cids: seq<nat>, posted: seq<Completion>, first: nat) {
    && |entries| <= |cids| && first + |entries| <= |posted|
    && forall i :: 0 <= i < |entries| ==> entries[i].cid == cids[i] && entries[i] == posted[first + i]
  }

  /** The identifier of the i-th command from one whose identifier is next. */
  function CidAt(next: nat, i: nat): nat {
    (next + i) % 0x10000
  }

  /** Identifiers count up and start over at 65536. */
  ghost predicate Counted(cids: seq<nat>, next: nat) {
    forall i :: 0 <= i < |cids| ==> cids[i] == CidAt(next, i)
  }

  lemma NothingMatched(posted: seq<Completion>, first: nat, next: nat)
    requires first <= |posted|
    ensures Matched([], [], posted, first) && Counted([], next) && (next < 0x10000 ==> CidAt(next, 0) == next)
  {
  }

  lemma MatchedMore(entries: seq<Completion>, cids: seq<nat>, posted: seq<Completion>, first: nat,
                    entry: Completion, now: seq<Completion>)
    requires Matched(entries, cids, posted, first) && posted <= now && |cids| == |entries| + 1
    requires first + |entries| < |now| && entry == now[first + |entries|] && entry.cid == cids[|entries|]
    ensures Matched(entries + [entry], cids, now, first)
  {
  }

  lemma MatchedLater(entries: seq<Completion>, cids: seq<nat>, posted: seq<Completion>, first: nat, cid: nat,
                     now: seq<Completion>)
    requires Matched(entries, cids, posted, first) && posted <= now
    ensures Matched(entries, cids + [cid], now, first)
  {
  }

  lemma CountedMore(cids: seq<nat>, next: nat)
    requires Counted(cids, next)
    ensures Counted(cids + [CidAt(next, |cids|)], next)
    ensures CidAt(next, |cids| + 1) == (CidAt(next, |cids|) + 1) % 0x10000
  {
  }

  /** One step of the controller. */
  lemma DoKeeps(r: Hardware, announced: nat, a: Act, at: nat, cid: nat, consumed: nat)
    requires HardwareInv(r, announced) && Shaped(r)
    ensures var s := Do(r, a);
      && HardwareInv(s, announced) && s.depth == r.depth && r.posted <= s.posted
      && s.sq == r.sq && s.sqDoorbell == r.sqDoorbell && s.cqDoorbell == r.cqDoorbell
      && (Idle(r, at, consumed) ==> Idle(s, at, consumed))
      && (OneInFlight(r, at, cid, consumed) ==> OneInFlight(s, at, cid, consumed))
  {
    match a
    case DoFetch =>
      hide RingHolds;
    case DoPost(id, status) =>
      PostKeepsInv(r, announced, id, status);
      hide HardwareInv;
  }

  /** Any number of controller steps in any order. */
  method ControllerRuns(h: Hardware, ghost announced: nat, ghost at: nat, ghost cid: nat, ghost consumed: nat)
    returns (r: Hardware, ghost acts: seq<Act>)
    requires HardwareInv(h, announced)
    ensures Shaped(h) && r == Behaves(h, acts)
    ensures HardwareInv(r, announced) && r.depth == h.depth && h.posted <= r.posted
    ensures r.sq == h.sq && r.sqDoorbell == h.sqDoorbell && r.cqDoorbell == h.cqDoorbell
    ensures Idle(h, at, consumed) ==> Idle(r, at, consumed)
    ensures OneInFlight(h, at, cid, consumed) ==> OneInFlight(r, at, cid, consumed)
  {
    hide RingHolds, Fetch, Post, Idle, OneInFlight, Behaves;
    r, acts := h, [];
    RingLength(h, announced);
    NoAct(h);
    var steps := Any();
    for i := 0 to steps
      invariant Shaped(h) && r == Behaves(h, acts)
      invariant HardwareInv(r, announced) && r.depth == h.depth && h.posted <= r.posted
      invariant r.sq == h.sq && r.sqDoorbell == h.sqDoorbell && r.cqDoorbell == h.cqDoorbell
      invariant Idle(h, at, consumed) ==> Idle(r, at, consumed)
      invariant OneInFlight(h, at, cid, consumed) ==> OneInFlight(r, at, cid, consumed)
    {
      var action := Any();
      var id := Any();
      var status := Any();
      ghost var act := if action == 0 then DoFetch else DoPost(id, status);
      BehavesOn(h, acts, [act]);
      OneAct(r, act);
      DoKeeps(r, announced, act, at, cid, consumed);
      acts := acts + [act];
      if action == 0 {
        r := Fetch(r);
      } else {
        r := Post(r, id, status);
      }
    }
  }

  // ----- the driver -----

  class QueuePair {
    const depth: nat
    var hw: Hardware
    var sqTail: nat
    var cqHead: nat
    var cqPhase: nat
    var nextCid: nat
    ghost var consumed: nat

    ghost predicate Valid()
      reads this
    {
      && hw.depth == depth && HardwareInv(hw, consumed)
      && sqTail == hw.sqDoorbell && cqHead == Slot(depth, consumed) && cqPhase == PhaseOf(depth, consumed)
    }

    ghost predicate Quiet()
      reads this
    {
      Idle(hw, sqTail, consumed)
    }

    constructor (depth: nat)
      requires depth >= 2
      ensures Valid() && Quiet() && this.depth == depth
    {
      this.depth := depth;
      sqTail, cqHead, cqPhase, nextCid := 0, 0, 1, 0;
      hw := Hardware(depth, seq(depth, _ => Command(0, [])), seq(depth, _ => Completion(0, 0)),
                     0, 0, 0, multiset{}, 0, 1, []);
      consumed := 0;
    }

    /** Moves past the entry under the head and announces it; the controller may run before the doorbell rings. */
    method Consume()
      requires Valid() && consumed < |hw.posted|
      modifies this`hw, this`cqHead, this`cqPhase, this`consumed
      ensures Valid() && consumed == old(consumed) + 1 && old(hw.posted) <= hw.posted
      ensures hw.sq == old(hw.sq) && hw.sqDoorbell == old(hw.sqDoorbell) && hw.cqDoorbell == cqHead
      ensures Idle(old(hw), sqTail, old(consumed) + 1) ==> Quiet()
    {
      hide RingHolds, Fetch, Post;
      SlotNext(depth, consumed);
      cqHead := Advance(depth, cqHead);
      if cqHead == 0 {
        cqPhase := 1 - cqPhase;
      }
      ghost var acts;
      hw, acts := ControllerRuns(hw, consumed, sqTail, 0, consumed + 1);
      consumed := consumed + 1;
      hw := hw.(cqDoorbell := cqHead);
    }

    /** Writes the command to the tail of the submission queue and rings the doorbell. */
    method Submit(cmd: Command) returns (cid: nat)
      requires Valid()
      modifies this`nextCid, this`hw, this`sqTail
      ensures Valid() && cid == old(nextCid) && nextCid == (old(nextCid) + 1) % 0x10000
      ensures sqTail == Advance(depth, old(sqTail)) && Shaped(old(hw)) && hw == Submitted(old(hw), Tagged(cmd, cid))
      ensures var sent := hw.sq[old(sqTail)];
        sent.cdw0 == cid * 0x10000 + cmd.cdw0 % 0x10000 && sent.body == cmd.body
      ensures old(Quiet()) ==> OneInFlight(hw, old(sqTail), cid, consumed)
    {
      hide RingHolds, Slot, PhaseOf;
      RingLength(hw, consumed);
      cid := nextCid;
      nextCid := (nextCid + 1) % 0x10000;
      hw := hw.(sq := hw.sq[sqTail := cmd.(cdw0 := cmd.cdw0 % 0x10000 + cid * 0x10000)]);
      sqTail := Advance(depth, sqTail);
      hw := hw.(sqDoorbell := sqTail);
    }

    /**
     * Submits cmd and polls for a completion. The entry consumed is the next one in posting order, as some
     * behaviour of the controller since the submission makes it; if the queue was quiet, it belongs to
     * this very command and the queue is quiet again.
     */
    method SubmitAndWait(cmd: Command) returns (ok: bool, outcome: Outcome, cid: nat)
      requires Valid()
      modifies this
      ensures Valid() && old(hw.posted) <= hw.posted
      ensures cid == old(nextCid) && nextCid == (old(nextCid) + 1) % 0x10000
      ensures outcome.Completed? ==> consumed == old(consumed) + 1 && outcome.entry == hw.posted[old(consumed)]
      ensures outcome.Completed? ==>
        Shaped(old(hw)) && Answers(Submitted(old(hw), Tagged(cmd, cid)), old(consumed), outcome.entry)
      ensures outcome.TimedOut? ==> consumed == old(consumed) == |hw.posted|
      ensures sqTail == Advance(depth, old(sqTail)) && hw.sq == old(hw.sq)[old(sqTail) := Tagged(cmd, cid)]
      ensures ok <==> outcome.Completed? && outcome.entry.status / 2 % 0x8000 == 0
      ensures old(Quiet()) && outcome.Completed? ==> outcome.entry.cid == cid && Quiet()
    {
      hide RingHolds, Fetch, Post, Slot, PhaseOf, Behaves, Answers, OneInFlight, Tagged;
      cid := Submit(cmd);
      ghost var at, submitted, acts: seq<Act> := old(sqTail), hw, [];
      NoAct(hw);

      for spins := 0 to SPINS
        invariant Valid() && old(hw.posted) <= hw.posted && consumed == old(consumed)
        invariant nextCid == (old(nextCid) + 1) % 0x10000 && sqTail == Advance(depth, at)
        invariant hw.sq == submitted.sq && (spins > 0 ==> |hw.posted| == consumed)
        invariant Shaped(submitted) && hw == Behaves(submitted, acts)
        invariant old(Quiet()) ==> OneInFlight(hw, at, cid, consumed)
      {
        ghost var more;
        hw, more := ControllerRuns(hw, consumed, at, cid, consumed);
        BehavesOn(submitted, acts, more);
        acts := acts + more;
        PhaseTellsPosted(depth, hw.cq, hw.posted, consumed);
        var entry := hw.cq[cqHead];
        if entry.Phase() == cqPhase {
          AnswerIs(submitted, consumed, acts);
          if old(Quiet()) {
            InFlightAnswered(hw, at, cid, consumed);
          }
          Consume();
          return entry.StatusCode() == 0, Completed(entry), cid;
        }
      }
      return false, TimedOut, cid;
    }

    /**
     * Any number of commands, until one times out. On a quiet queue the answers are the next entries in
     * posting order, and each carries the identifier under which its command was submitted.
     */
    method SubmitAll(cmds: seq<Command>) returns (entries: seq<Completion>, cids: seq<nat>, timedOut: bool)
      requires Valid() && Quiet() && nextCid < 0x10000
      modifies this
      ensures Valid() && |cids| == |entries| + (if timedOut then 1 else 0) <= |cmds|
      ensures !timedOut ==> |entries| == |cmds| && Quiet()
      ensures timedOut ==> |hw.posted| == consumed && hw.sq[LastSlot()] == Tagged(cmds[|entries|], cids[|entries|])
      ensures consumed == old(consumed) + |entries|
      ensures Counted(cids, old(nextCid)) && Matched(entries, cids, hw.posted, old(consumed))
    {
      hide RingHolds, Fetch, Post, Slot, PhaseOf, Answers, Counted, Matched, Tagged, Idle, CidAt;
      entries, cids, timedOut := [], [], false;
      NothingMatched(hw.posted, consumed, nextCid);
      for i := 0 to |cmds|
        invariant Valid() && Quiet() && |entries| == |cids| == i && consumed == old(consumed) + i
        invariant nextCid == CidAt(old(nextCid), i) && Counted(cids, old(nextCid))
        invariant Matched(entries, cids, hw.posted, old(consumed))
      {
        ghost var posted := hw.posted;
        var ok, outcome, cid := SubmitAndWait(cmds[i]);
        CountedMore(cids, old(nextCid));
        MatchedLater(entries, cids, posted, old(consumed), cid, hw.posted);
        cids := cids + [cid];
        if outcome.TimedOut? {
          return entries, cids, true;
        }
        MatchedMore(entries, cids, hw.posted, old(consumed), outcome.entry, hw.posted);
        entries := entries + [outcome.entry];
      }
    }

    /** The slot written last. */
    function LastSlot(): int
      reads this
    {
      if sqTail == 0 then depth - 1 else sqTail - 1
    }
  }
}
