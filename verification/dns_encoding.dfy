/** What the encoder makes of a dotted name, and that the decoder takes it back. */
module DnsEncoding {
  import opened Options
  import opened Bytes
  import opened DnsNames

  function FirstDot(h: Text): (d: nat)
    ensures d <= |h| && (d < |h| ==> h[d] == DOT)
    ensures forall i :: 0 <= i < d ==> h[i] != DOT
  {
    if h == [] || h[0] == DOT then 0 else 1 + FirstDot(h[1..])
  }

  /** The stretches between the dots. */
  function Split(h: Text): (labels: seq<Text>)
    ensures labels != []
  {
    var d := FirstDot(h);
    if d == |h| then [h] else [h[..d]] + Split(h[d + 1..])
  }

  predicate Good(labels: seq<Text>) {
    forall i :: 0 <= i < |labels| ==> 1 <= |labels[i]| <= MAX_LABEL
  }

  /** Each label behind its length, and the zero byte. */
  function Wire(labels: seq<Text>): (w: seq<byte>)
    requires Good(labels)
    ensures w != []
  {
    if labels == [] then [0] else [|labels[0]| as byte] + labels[0] + Wire(labels[1..])
  }

  /** How far the encoder gets: the first empty label ends the name. */
  function Emit(labels: seq<Text>): Option<seq<byte>> {
    if labels == [] || labels[0] == [] then Some([0])
    else if |labels[0]| > MAX_LABEL then None
    else After([|labels[0]| as byte] + labels[0], Emit(labels[1..]))
  }

  function After(before: seq<byte>, rest: Option<seq<byte>>): Option<seq<byte>> {
    match rest
    case None => None
    case Some(bytes) => Some(before + bytes)
  }

  lemma AfterNothing(rest: Option<seq<byte>>)
    ensures After([], rest) == rest
  {
    if rest.Some? {
      assert [] + rest.value == rest.value;
    }
  }

  function Encoded(h: Text): Option<seq<byte>> {
    match Emit(Split(h))
    case None => None
    case Some(bytes) => if |bytes| > 255 then None else Some(bytes)
  }

  /** How many bytes the encoder writes before it stops or refuses. */
  function Extent(labels: seq<Text>): nat {
    if labels == [] || labels[0] == [] then 1
    else if |labels[0]| > MAX_LABEL then 0
    else 1 + |labels[0]| + Extent(labels[1..])
  }

  /** What it writes for the name from start on. */
  function ExtentFrom(h: Text, start: nat): nat
    requires start <= |h|
  {
    Extent(Split(h[start..]))
  }

  /** Names of up to 254 characters stay within the buffer of 256 bytes. */
  lemma {:induction false} ExtentBounded(h: Text)
    ensures Extent(Split(h)) <= |h| + 2
    decreases |h|
  {
    var d := FirstDot(h);
    if d < |h| {
      ExtentBounded(h[d + 1..]);
      assert Split(h)[1..] == Split(h[d + 1..]);
    }
  }

  /** The stretch from start to i takes its length and its bytes, the end one byte. */
  lemma ExtentNext(h: Text, start: nat, i: nat)
    requires start <= i <= |h| && (i == |h| || h[i] == DOT) && NoDot(h, start, i)
    ensures i == start ==> ExtentFrom(h, start) == 1
    ensures 0 < i - start <= MAX_LABEL ==>
      ExtentFrom(h, start) == 1 + (i - start) + if i == |h| then 1 else ExtentFrom(h, i + 1)
  {
    SplitStretch(h[start..], i - start);
    hide Split;
    if i < |h| {
      assert h[start..][i - start + 1..] == h[i + 1..];
    } else {
      var rest := Split(h[start..])[1..];
      assert rest == [] && Extent(rest) == 1;
    }
  }

  lemma ExtentWhole(h: Text)
    ensures ExtentFrom(h, 0) == Extent(Split(h))
  {
    assert h[0..] == h;
  }

  // ----- dotted names and labels -----

  lemma {:induction false} JoinSplit(h: Text)
    ensures Join(Split(h)) == h
    decreases |h|
  {
    var d := FirstDot(h);
    if d < |h| {
      JoinSplit(h[d + 1..]);
      assert Split(h)[1..] == Split(h[d + 1..]);
      assert h == h[..d] + [h[d]] + h[d + 1..];
    }
  }

  lemma {:induction false} FirstDotIs(h: Text, n: nat)
    requires n <= |h| && (n == |h| || h[n] == DOT) && forall i :: 0 <= i < n ==> h[i] != DOT
    ensures FirstDot(h) == n
  {
    if n > 0 {
      FirstDotIs(h[1..], n - 1);
    }
  }

  /** What is left to emit, once the first n characters are known to be the next label. */
  lemma EmitStretch(before: seq<byte>, h: Text, n: nat)
    requires n <= |h| && (n == |h| || h[n] == DOT) && forall i :: 0 <= i < n ==> h[i] != DOT
    ensures After(before, Emit(Split(h))) ==
              if n == 0 then Some(before + [0])
              else if n > MAX_LABEL then None
              else
                var done := before + ([n as byte] + h[..n]);
                if n == |h| then Some(done + [0]) else After(done, Emit(Split(h[n + 1..])))
  {
    SplitStretch(h, n);
    hide Split;
    if 0 < n <= MAX_LABEL {
      AfterFirst(before, Split(h), n);
    }
  }

  /** What is still to be emitted behind the bytes written, for the name from start on. */
  function Pending(done: seq<byte>, h: Text, start: nat): Option<seq<byte>>
    requires start <= |h|
  {
    After(done, Emit(Split(h[start..])))
  }

  function WithPart(done: seq<byte>, part: Text): seq<byte>
    requires |part| <= MAX_LABEL
  {
    done + ([|part| as byte] + part)
  }

  function WithEnd(done: seq<byte>): (all: seq<byte>)
    ensures |all| == |done| + 1
  {
    done + [0]
  }

  lemma PendingAll(h: Text)
    ensures Pending([], h, 0) == Emit(Split(h))
  {
    assert h[0..] == h;
    AfterNothing(Emit(Split(h)));
  }

  ghost predicate NoDot(h: Text, start: nat, i: nat) {
    i <= |h| && forall j :: start <= j < i ==> h[j] != DOT
  }

  lemma NoDotYet(h: Text, start: nat)
    requires start <= |h|
    ensures NoDot(h, start, start)
  {
  }

  lemma NoDotMore(h: Text, start: nat, i: nat)
    requires NoDot(h, start, i) && i < |h| && h[i] != DOT
    ensures NoDot(h, start, i + 1)
  {
  }

  /** One stretch of the name, from start to i, is emitted. */
  lemma EmitNext(done: seq<byte>, h: Text, start: nat, i: nat)
    requires start <= i <= |h| && (i == |h| || h[i] == DOT) && NoDot(h, start, i)
    ensures i == start ==> Pending(done, h, start) == Some(WithEnd(done))
    ensures i - start > MAX_LABEL ==> Pending(done, h, start) == None
    ensures 0 < i - start <= MAX_LABEL ==>
      Pending(done, h, start) ==
        if i == |h| then Some(WithEnd(WithPart(done, h[start..i]))) else Pending(WithPart(done, h[start..i]), h, i + 1)
  {
    hide Emit, Split;
    EmitStretch(done, h[start..], i - start);
    assert h[start..][..i - start] == h[start..i];
    if i < |h| {
      assert h[start..][i - start + 1..] == h[i + 1..];
    }
  }

  /** The encoder has written done and goes on at start, and what it has yet to write fits the buffer. */
  ghost predicate Emitting(h: Text, done: seq<byte>, start: nat) {
    && start <= |h| && Emit(Split(h)) == Pending(done, h, start)
    && |done| + ExtentFrom(h, start) <= MAX_NAME + 1
  }

  /** What it returns once everything is written. */
  function Checked(bytes: seq<byte>): Option<seq<byte>> {
    if |bytes| > 255 then None else Some(bytes)
  }

  lemma EmittingStarts(h: Text)
    requires Extent(Split(h)) <= MAX_NAME + 1
    ensures Emitting(h, [], 0)
  {
    PendingAll(h);
    ExtentWhole(h);
  }

  /** The stretch from start to i is the end of the name, too long, the last label, or one more label. */
  lemma EmittingNext(h: Text, done: seq<byte>, start: nat, i: nat)
    requires Emitting(h, done, start) && start <= i <= |h| && (i == |h| || h[i] == DOT) && NoDot(h, start, i)
    ensures i == start ==> |done| <= MAX_NAME && Encoded(h) == Checked(WithEnd(done))
    ensures i - start > MAX_LABEL ==> Encoded(h) == None
    ensures 0 < i - start <= MAX_LABEL ==> |done| + 1 + (i - start) <= MAX_NAME + if i == |h| then 0 else 1
    ensures 0 < i - start <= MAX_LABEL && i == |h| ==> Encoded(h) == Checked(WithEnd(WithPart(done, h[start..i])))
    ensures 0 < i - start <= MAX_LABEL && i < |h| ==> Emitting(h, WithPart(done, h[start..i]), i + 1)
  {
    EmitNext(done, h, start, i);
    ExtentNext(h, start, i);
    hide Emit, Split, Pending, ExtentFrom;
  }

  lemma SplitStretch(h: Text, n: nat)
    requires n <= |h| && (n == |h| || h[n] == DOT) && forall i :: 0 <= i < n ==> h[i] != DOT
    ensures Split(h)[0] == h[..n]
    ensures if n == |h| then Split(h) == [h] else Split(h)[1..] == Split(h[n + 1..])
  {
    FirstDotIs(h, n);
    if n == |h| {
      assert h[..n] == h;
    }
  }

  lemma AfterFirst(before: seq<byte>, labels: seq<Text>, n: nat)
    requires labels != [] && |labels[0]| == n && 0 < n <= MAX_LABEL
    ensures var done := before + ([n as byte] + labels[0]);
      && After(before, Emit(labels)) == After(done, Emit(labels[1..]))
      && (|labels| == 1 ==> After(before, Emit(labels)) == Some(done + [0]))
  {
    var first := [n as byte] + labels[0];
    match Emit(labels[1..])
    case None =>
    case Some(rest) => assert before + (first + rest) == before + first + rest;
  }

  /** Where the encoder ends: every label before is sound, and none is left or the next one is empty. */
  lemma {:induction false} EmitPrefix(labels: seq<Text>) returns (e: nat)
    requires Emit(labels).Some?
    ensures e <= |labels| && Good(labels[..e]) && Emit(labels) == Some(Wire(labels[..e]))
    ensures e < |labels| ==> labels[e] == []
  {
    e := 0;
    if labels != [] && labels[0] != [] {
      e := EmitPrefix(labels[1..]);
      assert labels[..e + 1] == [labels[0]] + labels[1..][..e];
      e := e + 1;
    }
  }

  lemma {:induction false} EmitGood(labels: seq<Text>)
    requires Good(labels)
    ensures Emit(labels) == Some(Wire(labels))
  {
    if labels != [] {
      EmitGood(labels[1..]);
    }
  }

  lemma {:induction false} WireLength(labels: seq<Text>)
    requires Good(labels)
    ensures |Wire(labels)| == if labels == [] then 1 else |Join(labels)| + 2
  {
    if labels != [] {
      WireLength(labels[1..]);
    }
  }

  // ----- the encoded name inside a packet -----

  lemma {:induction false} WireExpands(before: seq<byte>, labels: seq<Text>, behind: seq<byte>, base: nat)
    requires Good(labels)
    ensures var src := before + Wire(labels) + behind;
      && Expand(src, |before|, base) == Some(Name(labels, |labels| + 1))
      && NameEnd(src, |before|) == |before| + |Wire(labels)|
    decreases |labels|
  {
    hide Good, Look;
    var src := before + Wire(labels) + behind;
    if labels == [] {
      assert src[|before|] == 0;
      LookEnd(src, |before|);
    } else {
      GoodRest(labels);
      var first := [|labels[0]| as byte] + labels[0];
      assert src == (before + first) + Wire(labels[1..]) + behind;
      WireExpands(before + first, labels[1..], behind, base);
      assert src == before + first + (Wire(labels[1..]) + behind);
      LookLabel(before, labels[0], Wire(labels[1..]) + behind);
      assert [labels[0]] + labels[1..] == labels;
    }
  }

  lemma GoodRest(labels: seq<Text>)
    requires Good(labels) && labels != []
    ensures Good(labels[1..]) && 1 <= |labels[0]| <= MAX_LABEL
  {
  }

  lemma LookEnd(src: seq<byte>, p: nat)
    requires p < |src| && src[p] == 0
    ensures Look(src, p) == End
  {
  }

  lemma LookLabel(before: seq<byte>, part: Text, behind: seq<byte>)
    requires 1 <= |part| <= MAX_LABEL
    ensures Look(before + ([|part| as byte] + part) + behind, |before|) == Label(part)
  {
    var src := before + ([|part| as byte] + part) + behind;
    assert src[|before|] == |part| as byte;
    assert src[|before| + 1..|before| + 1 + |part|] == part;
  }

  /** Wherever in a packet the encoded name stands, the decoder gives the labels back. */
  lemma {:induction false} WireDecodes(before: seq<byte>, labels: seq<Text>, behind: seq<byte>)
    requires Good(labels) && |Wire(labels)| <= 255
    ensures var src := before + Wire(labels) + behind;
      && DecodesTo(src, |before|, Some(Join(labels)))
      && NameEnd(src, |before|) == |before| + |Wire(labels)|
  {
    hide Wire, Expand, DecodesTo, Join, NameEnd;
    WireExpands(before, labels, behind, |before|);
    WireLength(labels);
    JoinLength(labels);
    DecodesExpansionExactly(before + Wire(labels) + behind, |before|);
  }

  /** Decoding what was encoded gives the name back exactly when its labels are sound and fit. */
  lemma {:induction false} RoundTrip(h: Text)
    ensures Encoded(h).Some? && DecodesTo(Encoded(h).value, 0, Some(h)) <==>
              h == [] || (Good(Split(h)) && |h| <= 253)
  {
    hide Encoded, DecodesTo, Split, Good;
    if h == [] {
      EmptyNameComesBack();
    } else if Good(Split(h)) {
      GoodNameComesBack(h);
    } else if Encoded(h).Some? {
      BadNameDoesNot(h);
    }
  }

  lemma GoodNameComesBack(h: Text)
    requires h != [] && Good(Split(h))
    ensures Encoded(h).Some? <==> |h| <= 253
    ensures Encoded(h).Some? ==> DecodesTo(Encoded(h).value, 0, Some(h))
  {
    hide Expand, DecodesTo, Join, NameEnd, Wire, Emit, Good, Split;
    var labels := Split(h);
    JoinSplit(h);
    EmitGood(labels);
    WireLength(labels);
    if |h| <= 253 {
      WireDecodes([], labels, []);
      assert [] + Wire(labels) + [] == Wire(labels);
    }
  }

  lemma BadNameDoesNot(h: Text)
    requires h != [] && !Good(Split(h)) && Encoded(h).Some?
    ensures !DecodesTo(Encoded(h).value, 0, Some(h))
  {
    hide Expand, DecodesTo, Join, NameEnd, Wire, Emit, Split;
    var labels := Split(h);
    var e := EmitPrefix(labels);
    assert labels[..|labels|] == labels;
    PrefixShorter(h, e);
    hide Good;
    WireDecodes([], labels[..e], []);
    assert [] + Wire(labels[..e]) + [] == Wire(labels[..e]);
    if DecodesTo(Encoded(h).value, 0, Some(h)) {
      DecodesToOne(Encoded(h).value, 0, Some(h), Some(Join(labels[..e])));
    }
  }

  lemma EmptyNameComesBack()
    ensures Encoded([]) == Some([0]) && DecodesTo([0], 0, Some([]))
  {
    assert Split([]) == [[]];
    WireDecodes([], [], []);
    assert [] + Wire([]) + [] == [0];
  }

  /** Stopping at an empty label loses at least the dot before it. */
  lemma PrefixShorter(h: Text, e: nat)
    requires e < |Split(h)| && Split(h)[e] == []
    ensures Join(Split(h)[..e]) == h ==> h == []
  {
    var labels := Split(h);
    JoinSplit(h);
    assert labels == (labels[..e] + [labels[e]]) + labels[e + 1..];
    JoinAppend(labels[..e], labels[e]);
    JoinGrows(labels[..e] + [labels[e]], labels[e + 1..]);
  }

  // ----- the length of an encoded name -----

  /** The bytes from p to the end of the name, if it ends or points away within n steps; otherwise 0. */
  function Flat(src: seq<byte>, p: nat, n: nat): nat
    decreases n
  {
    if n == 0 || p >= |src| then 0
    else
      match Look(src, p)
      case End => p + 1
      case Jump(_) => p + 2
      case Bad => 0
      case Label(part) => Flat(src, p + 1 + |part|, n - 1)
  }

  lemma FlatStep(src: seq<byte>, p: nat, n: nat)
    requires p < |src| && n > 0
    ensures Look(src, p) == End ==> Flat(src, p, n) == p + 1
    ensures Look(src, p).Jump? ==> Flat(src, p, n) == p + 2
    ensures Look(src, p) == Bad ==> Flat(src, p, n) == 0
    ensures Look(src, p).Label? ==> Flat(src, p, n) == Flat(src, p + 1 + |Look(src, p).text|, n - 1)
  {
  }

  lemma FlatOver(src: seq<byte>, p: nat, n: nat)
    requires p >= |src| || n == 0
    ensures Flat(src, p, n) == 0
  {
  }

  /** Where the decoder finds a whole name, its length is the offset the decoder leaves. */
  lemma {:induction false} FlatIsNameEnd(src: seq<byte>, p: nat, k: nat, n: nat)
    requires Ended(src, p, k) && k < n
    ensures Flat(src, p, n) == NameEnd(src, p)
    decreases k
  {
    hide Pos, Labels, Look, Ended;
    Standing(src, p, k);
    var m := Look(src, p);
    if m.Label? {
      FirstStep(src, p, k - 1);
      FlatIsNameEnd(src, p + 1 + |m.text|, k - 1, n - 1);
    }
  }

  lemma Standing(src: seq<byte>, p: nat, k: nat)
    requires Ended(src, p, k)
    ensures p < |src| && (if k == 0 then Look(src, p) == End else Onward(src, p).Some?)
  {
    if k > 0 {
      StopsThere(src, p, 0, k);
      PosStays(src, p, 1, k);
      assert Pos(src, p, 1) == Onward(src, p);
    }
  }

  /** The length of what the encoder wrote is the encoder's size, whatever stands behind it. */
  lemma EncodedHasLength(h: Text, behind: seq<byte>)
    requires Encoded(h).Some?
    ensures Flat(Encoded(h).value + behind, 0, MAX_NAME) == |Encoded(h).value|
  {
    hide Expand, Join, Emit, Wire;
    var e := EmitPrefix(Split(h));
    var labels := Split(h)[..e];
    var src := Encoded(h).value + behind;
    assert [] + Encoded(h).value + behind == src;
    WireExpands([], labels, behind, 0);
    WireLength(labels);
    JoinLength(labels);
    ExpandWalks(src, 0, 0);
    FlatIsNameEnd(src, 0, |labels|, MAX_NAME);
  }
}
