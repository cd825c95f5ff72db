/** Domain names on the wire: labels, the zero byte that ends them, and compression pointers. */
module DnsNames {
  import opened Options
  import opened Bytes

  type Text = seq<byte>

  const DOT: byte := 46
  const MAX_LABEL: nat := 63
  const MAX_NAME: nat := 255

  // ----- dotted names -----

  ghost predicate Proper(labels: seq<Text>) {
    forall i :: 0 <= i < |labels| ==> labels[i] != []
  }

  function Join(labels: seq<Text>): Text {
    if |labels| == 0 then [] else if |labels| == 1 then labels[0] else labels[0] + [DOT] + Join(labels[1..])
  }

  lemma {:induction false} JoinAppend(labels: seq<Text>, last: Text)
    ensures Join(labels + [last]) == if labels == [] then last else Join(labels) + [DOT] + last
  {
    if labels != [] {
      assert (labels + [last])[1..] == labels[1..] + [last];
      JoinAppend(labels[1..], last);
    }
  }

  /** Labels are never empty, so n of them take 2 * n - 1 characters or more. */
  lemma {:induction false} JoinLength(labels: seq<Text>)
    requires Proper(labels)
    ensures labels == [] ==> Join(labels) == []
    ensures labels != [] ==> |Join(labels)| >= 2 * |labels| - 1
  {
    if |labels| > 1 {
      JoinLength(labels[1..]);
    }
  }

  // ----- one step of a walk over a packet -----

  datatype Move = End | Bad | Label(text: Text) | Jump(target: nat)

  /** What stands at a position of the packet. */
  function Look(src: seq<byte>, p: nat): (m: Move)
    requires p < |src|
    ensures m.Label? ==> 1 <= |m.text| <= MAX_LABEL && p + 1 + |m.text| <= |src|
    ensures m.Jump? ==> m.target < |src|
  {
    var len := src[p] as nat;
    if len == 0 then End
    else if len >= 0xC0 then
      if p + 1 >= |src| then Bad
      else
        var target := (len - 0xC0) * 0x100 + src[p + 1] as nat;
        if target >= |src| then Bad else Jump(target)
    else if len > MAX_LABEL || p + 1 + len > |src| then Bad
    else Label(src[p + 1..p + 1 + len])
  }

  /**
   * Reading back what the wire format puts at a position: a label behind its length, a pointer as two
   * bytes from 0xC000 up, and a zero byte at the end.
   */
  lemma LookExactly(src: seq<byte>, p: nat, part: Text, target: nat)
    requires p < |src|
    ensures Look(src, p) == End <==> src[p] == 0
    ensures Look(src, p) == Label(part) <==>
      1 <= |part| <= MAX_LABEL && [|part| as byte] + part <= src[p..]
    ensures Look(src, p) == Jump(target) <==>
      target < 0x4000 && target < |src| && [(0xC0 + target / 0x100) as byte, (target % 0x100) as byte] <= src[p..]
  {
    if 1 <= |part| <= MAX_LABEL && [|part| as byte] + part <= src[p..] {
      assert src[p] == ([|part| as byte] + part)[0];
      assert src[p..][1..1 + |part|] == part;
    }
    if p + 1 < |src| && src[p] as nat >= 0xC0 {
      assert [src[p], src[p + 1]] == src[p..][..2];
    }
  }

  /** Where the walk goes from a position, if it goes on. */
  function Onward(src: seq<byte>, p: nat): Option<nat> {
    if p >= |src| then None
    else
      match Look(src, p)
      case Label(text) => Some(p + 1 + |text|)
      case Jump(target) => Some(target)
      case _ => None
  }

  /** Where the walk from o stands after k steps. */
  function Pos(src: seq<byte>, o: nat, k: nat): Option<nat> {
    if k == 0 then Some(o)
    else
      match Pos(src, o, k - 1)
      case None => None
      case Some(p) => Onward(src, p)
  }

  function LabelAt(src: seq<byte>, at: Option<nat>): seq<Text> {
    if at.Some? && at.value < |src| && Look(src, at.value).Label? then [Look(src, at.value).text] else []
  }

  /** The labels met in the first k steps. */
  function Labels(src: seq<byte>, o: nat, k: nat): (labels: seq<Text>)
    ensures Proper(labels)
  {
    if k == 0 then [] else Labels(src, o, k - 1) + LabelAt(src, Pos(src, o, k - 1))
  }

  /** The pointer followed in step k + 1, if it is one of those the decoder remembers. */
  ghost predicate Follows(src: seq<byte>, o: nat, k: nat, target: nat) {
    && Pos(src, o, k).Some? && Pos(src, o, k).value < |src|
    && Look(src, Pos(src, o, k).value) == Jump(target) && target < MAX_NAME
  }

  ghost predicate NoRepeats(src: seq<byte>, o: nat, k: nat) {
    forall i: nat, j: nat, t: nat :: i < j < k && Follows(src, o, i, t) ==> !Follows(src, o, j, t)
  }

  lemma {:induction false} PosStays(src: seq<byte>, o: nat, i: nat, k: nat)
    requires i <= k && Pos(src, o, k).Some?
    ensures Pos(src, o, i).Some?
  {
    if i < k {
      PosStays(src, o, i, k - 1);
    }
  }

  /** A walk goes on from where it stands, whatever it has passed. */
  lemma {:induction false} PosFrom(src: seq<byte>, o: nat, i: nat, m: nat)
    requires Pos(src, o, i).Some?
    ensures Pos(src, o, i + m) == Pos(src, Pos(src, o, i).value, m)
  {
    hide Look, Onward;
    if m > 0 {
      PosFrom(src, o, i, m - 1);
    }
  }

  lemma {:induction false} LabelsFrom(src: seq<byte>, o: nat, i: nat, m: nat)
    requires Pos(src, o, i).Some?
    ensures Labels(src, o, i + m) == Labels(src, o, i) + Labels(src, Pos(src, o, i).value, m)
  {
    hide Look, LabelAt, Pos, Proper;
    if m > 0 {
      LabelsFrom(src, o, i, m - 1);
      PosFrom(src, o, i, m - 1);
      assert i + m - 1 == i + (m - 1);
    } else {
      assert Labels(src, Pos(src, o, i).value, 0) == [];
    }
  }

  // ----- what the decoder returns -----

  /** After k steps the walk stands on the zero byte. */
  ghost predicate Ended(src: seq<byte>, o: nat, k: nat) {
    Pos(src, o, k).Some? && Pos(src, o, k).value < |src| && Look(src, Pos(src, o, k).value) == End
  }

  /** After k steps it stands behind the packet: there was no zero byte. */
  ghost predicate RanOff(src: seq<byte>, o: nat, k: nat) {
    Pos(src, o, k).Some? && Pos(src, o, k).value >= |src|
  }

  /** After k steps it still stands inside the packet. */
  ghost predicate Inside(src: seq<byte>, o: nat, k: nat) {
    Pos(src, o, k).Some? && Pos(src, o, k).value < |src|
  }

  /** What has been met in k steps fits the buffer, and no remembered pointer was met twice. */
  ghost predicate Clean(src: seq<byte>, o: nat, k: nat) {
    |Join(Labels(src, o, k))| < MAX_NAME && NoRepeats(src, o, k)
  }

  /**
   * The decoder returns after k steps: on the zero byte, or behind the packet, or - because its step
   * counter wraps below zero before it is looked at - in the middle of the walk.
   */
  ghost predicate Returns(src: seq<byte>, o: nat, k: nat) {
    && Clean(src, o, k)
    && ((k < 254 && Ended(src, o, k)) || (k < 255 && RanOff(src, o, k)) || (k == 255 && Inside(src, o, k)))
  }

  ghost predicate DecodesTo(src: seq<byte>, o: nat, name: Option<Text>) {
    match name
    case None => o >= |src| || forall k: nat :: !Returns(src, o, k)
    case Some(text) => o < |src| && exists k: nat :: Returns(src, o, k) && text == Join(Labels(src, o, k))
  }

  /** Just past the zero byte, or past the first pointer. */
  function NameEnd(src: seq<byte>, p: nat): nat
    decreases |src| - p
  {
    if p >= |src| then p
    else
      match Look(src, p)
      case End => p + 1
      case Bad => p
      case Label(text) => NameEnd(src, p + 1 + |text|)
      case Jump(_) => p + 2
  }

  /** The walk can return in one place only. */
  lemma ReturnsOnce(src: seq<byte>, o: nat, j: nat, k: nat)
    requires Returns(src, o, j) && Returns(src, o, k)
    ensures j == k
  {
    if j < k {
      StopsThere(src, o, j, k);
    } else if k < j {
      StopsThere(src, o, k, j);
    }
  }

  lemma StopsThere(src: seq<byte>, o: nat, j: nat, k: nat)
    requires j < k && Pos(src, o, k).Some?
    ensures !Ended(src, o, j) && !RanOff(src, o, j)
  {
    PosStays(src, o, j + 1, k);
  }

  lemma DecodesToOne(src: seq<byte>, o: nat, name: Option<Text>, other: Option<Text>)
    requires DecodesTo(src, o, name) && DecodesTo(src, o, other)
    ensures name == other
  {
    if name.Some? && other.Some? {
      var j: nat :| Returns(src, o, j) && name.value == Join(Labels(src, o, j));
      var k: nat :| Returns(src, o, k) && other.value == Join(Labels(src, o, k));
      ReturnsOnce(src, o, j, k);
    }
  }

  /** A walk that comes to an end has met no pointer twice: the second meeting would repeat the first for ever. */
  lemma EndedHasNoRepeats(src: seq<byte>, o: nat, k: nat)
    requires Ended(src, o, k)
    ensures NoRepeats(src, o, k)
  {
    hide Ended, Follows, Pos;
    forall i: nat, j: nat, t: nat | i < j < k && Follows(src, o, i, t)
      ensures !Follows(src, o, j, t)
    {
      if Follows(src, o, j, t) {
        FollowsTo(src, o, i, t);
        FollowsTo(src, o, j, t);
        EndedFrom(src, o, j + 1, k);
        EndedFrom(src, o, i + 1, k - (j - i));
        EndedTwice(src, o, k - (j - i), k);
      }
    }
  }

  lemma FollowsTo(src: seq<byte>, o: nat, k: nat, t: nat)
    requires Follows(src, o, k, t)
    ensures Pos(src, o, k + 1) == Some(t)
  {
  }

  /** Whether a walk is at its end after k steps depends on where it stands after i of them. */
  lemma EndedFrom(src: seq<byte>, o: nat, i: nat, k: nat)
    requires i <= k && Pos(src, o, i).Some?
    ensures Ended(src, o, k) <==> Ended(src, Pos(src, o, i).value, k - i)
  {
    hide Pos, Look;
    PosFrom(src, o, i, k - i);
    assert i + (k - i) == k;
  }

  lemma EndedTwice(src: seq<byte>, o: nat, j: nat, k: nat)
    requires j < k && Ended(src, o, k)
    ensures !Ended(src, o, j)
  {
    StopsThere(src, o, j, k);
  }

  lemma {:induction false} JoinGrows(labels: seq<Text>, more: seq<Text>)
    ensures |Join(labels)| <= |Join(labels + more)|
  {
    if more == [] {
      assert labels + more == labels;
    } else {
      var n := |more| - 1;
      JoinGrows(labels, more[..n]);
      assert labels + more == (labels + more[..n]) + [more[n]];
      JoinAppend(labels + more[..n], more[n]);
    }
  }

  lemma CleanStays(src: seq<byte>, o: nat, i: nat, k: nat)
    requires i <= k && Pos(src, o, i).Some? && Clean(src, o, k)
    ensures Clean(src, o, i)
  {
    hide Pos, Labels, Follows;
    LabelsFrom(src, o, i, k - i);
    assert i + (k - i) == k;
    JoinGrows(Labels(src, o, i), Labels(src, Pos(src, o, i).value, k - i));
  }

  /** Where the decoder gives up inside the packet, the walk never returns. */
  lemma GivesUp(src: seq<byte>, o: nat, k: nat)
    requires Inside(src, o, k) && !Ended(src, o, k) && k < 255
    requires Pos(src, o, k + 1).Some? ==> !Clean(src, o, k + 1)
    ensures forall j: nat :: !Returns(src, o, j)
  {
    hide Pos, Clean, Look;
    forall j: nat ensures !Returns(src, o, j) {
      if Returns(src, o, j) {
        if j < k {
          StopsThere(src, o, j, k);
        } else if j > k {
          PosStays(src, o, k + 1, j);
          CleanStays(src, o, k + 1, j);
        }
      }
    }
  }

  /** It gives up when the last step it allows itself is the one that ends the walk. */
  lemma GivesUpLate(src: seq<byte>, o: nat, k: nat)
    requires (k == 254 && Ended(src, o, k)) || (k == 255 && RanOff(src, o, k))
    ensures forall j: nat :: !Returns(src, o, j)
  {
    hide Pos, Clean, Look;
    forall j: nat ensures !Returns(src, o, j) {
      if Returns(src, o, j) {
        if j < k {
          StopsThere(src, o, j, k);
        } else if j > k {
          StopsThere(src, o, k, j);
        }
      }
    }
  }

  // ----- the decoder's progress -----

  /** k steps into the walk: the position, the name so far, the pointers seen, and where the name itself ends. */
  datatype Progress = Progress(k: nat, p: nat, text: Text, seen: seq<bool>, jumped: bool, end: nat)

  ghost predicate Walked(src: seq<byte>, o: nat, g: Progress) {
    && g.k <= 255 && Pos(src, o, g.k) == Some(g.p) && Clean(src, o, g.k) && g.text == Join(Labels(src, o, g.k))
    && Remembers(src, o, g.k, g.seen)
    && (g.jumped ==> g.end == NameEnd(src, o))
    && (!g.jumped ==> NameEnd(src, o) == NameEnd(src, g.p) && |Labels(src, o, g.k)| == g.k)
  }

  ghost predicate Remembers(src: seq<byte>, o: nat, k: nat, seen: seq<bool>) {
    && |seen| == MAX_NAME
    && forall t: nat :: t < MAX_NAME ==> (seen[t] <==> exists i: nat :: i < k && Follows(src, o, i, t))
  }

  function PastLabel(g: Progress, part: Text): Progress {
    Progress(g.k + 1, g.p + 1 + |part|, Dotted(g.text, part), g.seen, g.jumped, g.end)
  }

  function PastJump(g: Progress, t: nat): Progress {
    var seen := if t < |g.seen| then g.seen[t := true] else g.seen;
    Progress(g.k + 1, t, g.text, seen, true, if g.jumped then g.end else g.p + 2)
  }

  lemma WalkStarts(src: seq<byte>, o: nat, seen: seq<bool>)
    requires |seen| == MAX_NAME && forall t :: 0 <= t < MAX_NAME ==> !seen[t]
    ensures Walked(src, o, Progress(0, o, [], seen, false, o))
  {
  }

  function Dotted(text: Text, part: Text): Text {
    if text == [] then part else text + [DOT] + part
  }

  lemma NoJump(src: seq<byte>, o: nat, k: nat, seen: seq<bool>)
    requires Inside(src, o, k) && !Look(src, Pos(src, o, k).value).Jump?
    requires Remembers(src, o, k, seen) && NoRepeats(src, o, k)
    ensures Remembers(src, o, k + 1, seen) && NoRepeats(src, o, k + 1)
  {
    assert forall t: nat :: !Follows(src, o, k, t);
    hide Follows;
  }

  lemma LabelStep(src: seq<byte>, o: nat, k: nat, p: nat)
    requires Pos(src, o, k) == Some(p) && p < |src| && Look(src, p).Label?
    ensures Labels(src, o, k + 1) == Labels(src, o, k) + [Look(src, p).text]
    ensures Pos(src, o, k + 1) == Some(p + 1 + |Look(src, p).text|)
    ensures NameEnd(src, p) == NameEnd(src, p + 1 + |Look(src, p).text|)
  {
    hide Look;
  }

  lemma WalkLabel(src: seq<byte>, o: nat, g: Progress)
    requires o < |src| && Walked(src, o, g) && g.k < 255 && g.p < |src| && Look(src, g.p).Label?
    ensures var part := Look(src, g.p).text;
      if |Dotted(g.text, part)| < MAX_NAME then Walked(src, o, PastLabel(g, part)) else DecodesTo(src, o, None)
  {
    hide Follows, Pos, Labels, Look, Remembers, NoRepeats, NameEnd, DecodesTo, Join;
    var part, labels := Look(src, g.p).text, Labels(src, o, g.k);
    LabelStep(src, o, g.k, g.p);
    NoJump(src, o, g.k, g.seen);
    JoinAppend(labels, part);
    JoinLength(labels);
    assert Join(Labels(src, o, g.k + 1)) == Dotted(g.text, part);
    if |Dotted(g.text, part)| >= MAX_NAME {
      NotClean(src, o, g.k, g.p);
    }
  }

  lemma NotClean(src: seq<byte>, o: nat, k: nat, p: nat)
    requires k < 255 && o < |src| && Pos(src, o, k) == Some(p) && p < |src| && Look(src, p) != End
    requires !Clean(src, o, k + 1)
    ensures DecodesTo(src, o, None)
  {
    GivesUp(src, o, k);
  }

  lemma JumpStep(src: seq<byte>, o: nat, k: nat, p: nat)
    requires Pos(src, o, k) == Some(p) && p < |src| && Look(src, p).Jump?
    ensures Labels(src, o, k + 1) == Labels(src, o, k)
    ensures Pos(src, o, k + 1) == Some(Look(src, p).target) && NameEnd(src, p) == p + 2
    ensures forall t: nat :: Follows(src, o, k, t) <==> t == Look(src, p).target && t < MAX_NAME
  {
    hide Look;
  }

  /** A pointer met for the first time joins those remembered. */
  lemma NewPointer(src: seq<byte>, o: nat, k: nat, t: nat, seen: seq<bool>)
    requires Remembers(src, o, k, seen) && NoRepeats(src, o, k)
    requires forall s: nat :: Follows(src, o, k, s) <==> s == t && s < MAX_NAME
    requires t < MAX_NAME ==> !seen[t]
    ensures NoRepeats(src, o, k + 1)
    ensures Remembers(src, o, k + 1, if t < MAX_NAME then seen[t := true] else seen)
  {
    hide Follows;
    var now := if t < MAX_NAME then seen[t := true] else seen;
    forall s: nat | s < MAX_NAME
      ensures now[s] <==> exists i: nat :: i < k + 1 && Follows(src, o, i, s)
    {
      if s == t {
        assert Follows(src, o, k, s);
      }
    }
  }

  lemma OldPointer(src: seq<byte>, o: nat, k: nat, t: nat, seen: seq<bool>)
    requires Remembers(src, o, k, seen) && t < |seen| && seen[t] && Follows(src, o, k, t)
    ensures !NoRepeats(src, o, k + 1)
  {
    hide Follows;
    var i: nat :| i < k && Follows(src, o, i, t);
  }

  lemma WalkJump(src: seq<byte>, o: nat, g: Progress)
    requires o < |src| && Walked(src, o, g) && g.k < 255 && g.p < |src| && Look(src, g.p).Jump?
    ensures var t := Look(src, g.p).target;
      if t < |g.seen| && g.seen[t] then DecodesTo(src, o, None) else Walked(src, o, PastJump(g, t))
  {
    hide Follows, Pos, Labels, Look, NoRepeats, NameEnd, DecodesTo, Join;
    var t := Look(src, g.p).target;
    JumpStep(src, o, g.k, g.p);
    if t < MAX_NAME && g.seen[t] {
      OldPointer(src, o, g.k, t, g.seen);
      NotClean(src, o, g.k, g.p);
    } else {
      NewPointer(src, o, g.k, t, g.seen);
    }
  }

  lemma WalkFails(src: seq<byte>, o: nat, g: Progress)
    requires o < |src| && Walked(src, o, g) && g.k < 255 && g.p < |src| && Look(src, g.p) == Bad
    ensures DecodesTo(src, o, None)
  {
    GivesUp(src, o, g.k);
  }

  /** The three ways out of the loop; the step counter then reads 254 - k, 255 - k, or all ones. */
  lemma WalkStops(src: seq<byte>, o: nat, g: Progress)
    requires o < |src| && Walked(src, o, g)
    requires g.k == 255 || g.p >= |src| || Look(src, g.p) == End
    ensures DecodesTo(src, o, if (if g.p < |src| then g.k == 254 else g.k == 255) then None else Some(g.text))
    ensures g.k == 255 && g.p < |src| ==> g.jumped
    ensures g.jumped ==> g.end == NameEnd(src, o)
    ensures !g.jumped && g.k < 255 ==> NameEnd(src, o) == if g.p < |src| then g.p + 1 else g.p
  {
    hide Pos, Look;
    if if g.p < |src| then g.k == 254 else g.k == 255 {
      GivesUpLate(src, o, g.k);
    } else {
      assert Returns(src, o, g.k);
    }
    JoinLength(Labels(src, o, g.k));
  }

  // ----- the reference: section 4.1.4 of RFC 1035 -----

  datatype Name = Name(labels: seq<Text>, steps: nat)

  /** The name at o, by recursion; a pointer leads to a prior part, before the one it stands in. */
  function Expand(src: seq<byte>, o: nat, base: nat): (name: Option<Name>)
    ensures name.Some? ==> o < |src|
    decreases base, |src| - o
  {
    if o >= |src| then None
    else
      match Look(src, o)
      case End => Some(Name([], 1))
      case Bad => None
      case Label(text) =>
        (match Expand(src, o + 1 + |text|, base)
         case None => None
         case Some(rest) => Some(Name([text] + rest.labels, rest.steps + 1)))
      case Jump(target) =>
        if target >= base then None
        else
          match Expand(src, target, target)
          case None => None
          case Some(rest) => Some(Name(rest.labels, rest.steps + 1))
  }

  lemma {:induction false} ExpandWalks(src: seq<byte>, o: nat, base: nat)
    requires Expand(src, o, base).Some?
    ensures var name := Expand(src, o, base).value;
      name.steps > 0 && Ended(src, o, name.steps - 1) && Labels(src, o, name.steps - 1) == name.labels
    decreases base, |src| - o
  {
    hide Ended, Pos, Labels, Look;
    match Look(src, o)
    case End =>
      EndsAtOnce(src, o);
    case Label(text) =>
      ExpandWalks(src, o + 1 + |text|, base);
      FirstStep(src, o, Expand(src, o, base).value.steps - 2);
    case Jump(target) =>
      ExpandWalks(src, target, target);
      FirstStep(src, o, Expand(src, o, base).value.steps - 2);
  }

  lemma EndsAtOnce(src: seq<byte>, o: nat)
    requires o < |src| && Look(src, o) == End
    ensures Ended(src, o, 0) && Labels(src, o, 0) == []
  {
  }

  lemma FirstStep(src: seq<byte>, o: nat, m: nat)
    requires Onward(src, o).Some?
    ensures Ended(src, o, m + 1) <==> Ended(src, Onward(src, o).value, m)
    ensures Labels(src, o, m + 1) == LabelAt(src, Some(o)) + Labels(src, Onward(src, o).value, m)
  {
    OneStep(src, o);
    hide Pos, Labels, Look, Onward, LabelAt;
    EndedFrom(src, o, 1, m + 1);
    LabelsFrom(src, o, 1, m);
  }

  lemma OneStep(src: seq<byte>, o: nat)
    ensures Pos(src, o, 1) == Onward(src, o) && Labels(src, o, 1) == LabelAt(src, Some(o))
  {
    assert Pos(src, o, 0) == Some(o) && Labels(src, o, 0) == [];
  }

  lemma EndedReturns(src: seq<byte>, o: nat, k: nat)
    requires o < |src| && Ended(src, o, k) && k < 254 && |Join(Labels(src, o, k))| < MAX_NAME
    ensures DecodesTo(src, o, Some(Join(Labels(src, o, k))))
  {
    EndedHasNoRepeats(src, o, k);
    assert Returns(src, o, k);
  }

  /** A longer walk is cut off after 255 steps, and what it has met by then is returned as the name. */
  lemma LongWalkCut(src: seq<byte>, o: nat, k: nat)
    requires o < |src| && Ended(src, o, k) && k >= 255 && |Join(Labels(src, o, k))| < MAX_NAME
    ensures DecodesTo(src, o, Some(Join(Labels(src, o, 255))))
  {
    hide Labels, Look, Follows;
    EndedHasNoRepeats(src, o, k);
    PosStays(src, o, 255, k);
    if k > 255 {
      StopsThere(src, o, 255, k);
    }
    CleanStays(src, o, 255, k);
    assert Returns(src, o, 255);
  }

  lemma JoinGrowsStrictly(labels: seq<Text>, more: seq<Text>)
    requires Proper(labels) && Proper(more) && Join(labels) == Join(labels + more)
    ensures more == []
  {
    if more != [] {
      var first := labels + [more[0]];
      assert labels + more == first + more[1..];
      JoinGrows(first, more[1..]);
      JoinAppend(labels, more[0]);
    }
  }

  lemma ReturnsBeforeEnd(src: seq<byte>, o: nat, k: nat, n: nat)
    requires Returns(src, o, k) && Ended(src, o, n)
    ensures (k == n && n < 254) || (k == 255 && n >= 255)
  {
    hide Pos, Clean, Look;
    if k < n {
      StopsThere(src, o, k, n);
    } else if n < k {
      StopsThere(src, o, n, k);
    }
  }

  lemma LabelsBehind(src: seq<byte>, o: nat, k: nat, n: nat)
    requires k <= n && Ended(src, o, n) && Join(Labels(src, o, k)) == Join(Labels(src, o, n))
    ensures Labels(src, o, k) == Labels(src, o, n)
  {
    hide Pos, Join, Labels, Look;
    PosStays(src, o, k, n);
    LabelsFrom(src, o, k, n - k);
    assert k + (n - k) == n;
    JoinGrowsStrictly(Labels(src, o, k), Labels(src, Pos(src, o, k).value, n - k));
  }

  /**
   * The decoder computes the recursive expansion of a name exactly when the expansion has at most 254
   * characters and takes at most 254 steps, or 256 and more with no label behind the 255th.
   */
  lemma DecodesExpansionExactly(src: seq<byte>, o: nat)
    requires Expand(src, o, o).Some?
    ensures var full := Expand(src, o, o).value;
      DecodesTo(src, o, Some(Join(full.labels))) <==>
        |Join(full.labels)| < MAX_NAME
        && (full.steps <= 254 || (full.steps >= 256 && Labels(src, o, 255) == full.labels))
  {
    hide Ended, Join, Labels, Expand, Returns, Pos;
    ExpandWalks(src, o, o);
    var full := Expand(src, o, o).value;
    var n := full.steps - 1;
    if DecodesTo(src, o, Some(Join(full.labels))) {
      var k: nat :| Returns(src, o, k) && Join(full.labels) == Join(Labels(src, o, k));
      ReturnsBeforeEnd(src, o, k, n);
      ReturnsFits(src, o, k);
      LabelsBehind(src, o, k, n);
    } else if |Join(full.labels)| < MAX_NAME {
      if full.steps <= 254 {
        EndedReturns(src, o, n);
      } else if full.steps >= 256 {
        LongWalkCut(src, o, n);
      }
    }
  }

  lemma ReturnsFits(src: seq<byte>, o: nat, k: nat)
    requires Returns(src, o, k)
    ensures |Join(Labels(src, o, k))| < MAX_NAME
  {
  }

  /** In particular every name of up to 254 characters and 254 steps comes out in full, and nothing else does. */
  lemma DecodesExpansion(src: seq<byte>, o: nat, name: Option<Text>)
    requires Expand(src, o, o).Some? && DecodesTo(src, o, name)
    requires Expand(src, o, o).value.steps <= 254 && |Join(Expand(src, o, o).value.labels)| < MAX_NAME
    ensures name == Some(Join(Expand(src, o, o).value.labels))
  {
    DecodesExpansionExactly(src, o);
    DecodesToOne(src, o, name, Some(Join(Expand(src, o, o).value.labels)));
  }

  /** A pointer to itself names nothing, but from position 255 on the decoder takes it for the root. */
  lemma {:induction false} SelfPointerIsRoot(src: seq<byte>, o: nat)
    requires MAX_NAME <= o < |src| && Look(src, o) == Jump(o)
    ensures DecodesTo(src, o, Some([])) && forall k: nat :: !Ended(src, o, k)
  {
    hide Pos, Labels, Look;
    forall k: nat ensures Pos(src, o, k) == Some(o) {
      StaysPut(src, o, k);
    }
    StaysPut(src, o, 255);
    assert Returns(src, o, 255);
  }

  lemma {:induction false} StaysPut(src: seq<byte>, o: nat, k: nat)
    requires o < |src| && Look(src, o) == Jump(o)
    ensures Pos(src, o, k) == Some(o) && Labels(src, o, k) == []
  {
    if k > 0 {
      StaysPut(src, o, k - 1);
    }
  }

  /** Such a packet: the pointer 0xC12C at position 300. */
  lemma SelfPointerPacket(src: seq<byte>)
    requires |src| == 302 && src[300] == 0xC1 && src[301] == 0x2C
    ensures DecodesTo(src, 300, Some([])) && Expand(src, 300, 300) == None
  {
    SelfPointerIsRoot(src, 300);
  }

  /** A label at the very end of the packet is a name for the decoder, though no zero byte follows. */
  lemma UnterminatedAccepted()
    ensures DecodesTo([1, 97], 0, Some([97])) && Expand([1, 97], 0, 0) == None
  {
    var src: seq<byte> := [1, 97];
    assert Look(src, 0) == Label([97]);
    WalkStarts(src, 0, seq(MAX_NAME, _ => false));
    WalkLabel(src, 0, Progress(0, 0, [], seq(MAX_NAME, _ => false), false, 0));
    WalkStops(src, 0, PastLabel(Progress(0, 0, [], seq(MAX_NAME, _ => false), false, 0), [97]));
  }
}
