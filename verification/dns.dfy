/** Host names to and from the wire. */
module Dns {
  import opened Options
  import opened Bytes
  import opened Bits
  import opened DnsNames
  import opened DnsEncoding

  const MAX_SIZE: nat := 0xFFFF_FFFF_FFFF_FFFF

  /** Copies the text into the buffer behind what is already there. */
  method Copy(buffer: array<byte>, at: nat, text: seq<byte>)
    requires at + |text| <= buffer.Length
    modifies buffer
    ensures buffer[..at + |text|] == old(buffer[..at]) + text
  {
    var i := 0;
    while i < |text|
      invariant 0 <= i <= |text|
      invariant buffer[..at] == old(buffer[..at])
      invariant buffer[at..at + i] == text[..i]
    {
      buffer[at + i] := text[i];
      i := i + 1;
    }
    assert buffer[..at + |text|] == buffer[..at] + buffer[at..at + |text|];
  }

  /** What the masks of a length byte tell. */
  lemma LengthByte(len: nat)
    requires len < 0x100
    ensures BitAnd(len, 0xC0) == 0xC0 <==> len >= 0xC0
    ensures BitAnd(len, 0xC0) == 0 <==> len <= MAX_LABEL
    ensures len >= 0xC0 ==> BitAnd(len, 0x3F) == len - 0xC0
  {
    TopTwoBits(len);
  }

  /** Reads what stands at a position: the two top bits of a byte tell a length from a pointer. */
  method Read(src: seq<byte>, offset: nat) returns (move: Move)
    requires offset < |src|
    ensures move == Look(src, offset)
  {
    var len := src[offset] as nat;
    if len == 0 {
      return End;
    }
    LengthByte(len);
    hide BitAnd;
    var kind := BitAnd(len, 0xC0);
    if kind == 0xC0 {
      if offset + 1 >= |src| {
        return Bad;
      }
      var ptr := BitAnd(len, 0x3F) * 0x100 + src[offset + 1] as nat;
      if ptr >= |src| {
        return Bad;
      }
      return Jump(ptr);
    }
    if kind != 0 {
      return Bad;
    }
    if offset + 1 + len > |src| {
      return Bad;
    }
    return Label(src[offset + 1..offset + 1 + len]);
  }

  /** Adds a label to the name in the buffer, behind a dot if it is not the first. */
  method AppendLabel(out: array<byte>, length: nat, part: Text) returns (fits: bool, outLen: nat)
    requires out.Length == MAX_NAME + 1 && length < MAX_NAME && |part| <= MAX_LABEL
    modifies out
    ensures fits <==> |Dotted(old(out[..length]), part)| < MAX_NAME
    ensures outLen < MAX_NAME && (fits ==> out[..outLen] == Dotted(old(out[..length]), part))
  {
    outLen := length;
    if outLen != 0 {
      if outLen + 1 >= MAX_NAME {
        return false, length;
      }
      out[outLen] := DOT;
      outLen := outLen + 1;
      assert out[..outLen] == old(out[..length]) + [DOT];
    }
    if outLen + |part| >= MAX_NAME {
      return false, length;
    }
    Copy(out, outLen, part);
    outLen := outLen + |part|;
    fits := true;
  }

  /** Whether a pointer was followed before; those from 255 on are not remembered. */
  method Revisit(visited: array<bool>, ptr: nat) returns (again: bool)
    requires visited.Length == MAX_NAME
    modifies visited
    ensures again <==> ptr < MAX_NAME && old(visited[ptr])
    ensures visited[..] == if ptr < MAX_NAME then old(visited[..])[ptr := true] else old(visited[..])
  {
    if ptr < MAX_NAME {
      if visited[ptr] {
        return true;
      }
      visited[ptr] := true;
    }
    return false;
  }

  /** The name at start, with the offset behind it; pointers lead elsewhere in the packet. */
  method DecodeHostname(src: seq<byte>, start: nat) returns (name: Option<Text>, offset: nat)
    ensures DecodesTo(src, start, name)
    ensures name.Some? ==> offset == NameEnd(src, start)
  {
    offset := start;
    if offset >= |src| {
      return None, offset;
    }
    var out := new byte[MAX_NAME + 1];
    var outLen: nat := 0;
    var visited := new bool[MAX_NAME](_ => false);
    var jumped, original, loops: nat := false, offset, MAX_NAME;
    ghost var g := Progress(0, offset, [], visited[..], false, offset);
    hide *;
    WalkStarts(src, start, visited[..]);
    while offset < |src|
      invariant outLen < MAX_NAME && loops <= 255
      invariant g.k == 255 - loops && g.p == offset && g.jumped == jumped && g.end == original
      invariant g.text == out[..outLen] && g.seen == visited[..]
      invariant Walked(src, start, g)
      decreases loops
    {
      if loops == 0 {
        WalkStops(src, start, g);
        loops := MAX_SIZE;
        break;
      }
      loops := loops - 1;
      var move := Read(src, offset);
      match move {
      case End =>
        WalkStops(src, start, g);
        offset := offset + 1;
        break;
      case Bad =>
        WalkFails(src, start, g);
        return None, offset;
      case Jump(ptr) =>
        WalkJump(src, start, g);
        var again := Revisit(visited, ptr);
        if again {
          return None, offset;
        }
        if !jumped {
          original, jumped := offset + 2, true;
        }
        offset := ptr;
        g := PastJump(g, ptr);
      case Label(part) =>
        WalkLabel(src, start, g);
        var fits;
        fits, outLen := AppendLabel(out, outLen, part);
        if !fits {
          return None, offset;
        }
        offset := offset + 1 + |part|;
        g := PastLabel(g, part);
      }
    }
    if g.p >= |src| {
      WalkStops(src, start, g);
    }
    if loops == 0 {
      return None, offset;
    }
    name := Some(out[..outLen]);
    if jumped {
      offset := original;
    }
  }

  /** The bytes the name at the front takes up, or 0 if it is not a name. */
  method EncodedLength(src: seq<byte>) returns (size: nat)
    ensures size == Flat(src, 0, MAX_NAME)
  {
    if |src| == 0 {
      return 0;
    }
    hide *;
    var offset: nat, loops: nat := 0, MAX_NAME;
    while offset < |src| && loops > 0
      invariant Flat(src, 0, MAX_NAME) == Flat(src, offset, loops)
      invariant 0 <= loops
      decreases loops
    {
      FlatStep(src, offset, loops);
      loops := loops - 1;
      var move := Read(src, offset);
      match move
      case End => return offset + 1;
      case Jump(_) => return offset + 2;
      case Bad => return 0;
      case Label(part) => offset := offset + 1 + |part|;
    }
    FlatOver(src, offset, loops);
    size := 0;
  }

  method AppendPart(buffer: array<byte>, at: nat, part: Text) returns (write: nat)
    requires 1 <= |part| <= MAX_LABEL && at + 1 + |part| <= buffer.Length
    modifies buffer
    ensures write == at + 1 + |part|
    ensures buffer[..write] == WithPart(old(buffer[..at]), part)
  {
    buffer[at] := |part| as byte;
    assert buffer[..at + 1] == old(buffer[..at]) + [|part| as byte];
    Copy(buffer, at + 1, part);
    write := at + 1 + |part|;
  }

  method AppendEnd(buffer: array<byte>, at: nat)
    requires at < buffer.Length
    modifies buffer
    ensures buffer[..at + 1] == WithEnd(old(buffer[..at]))
  {
    buffer[at] := 0;
  }

  /** The labels of a host name behind their lengths, as long as what is written fits the buffer. */
  method EncodeHostname(h: Text) returns (encoded: Option<seq<byte>>)
    requires Extent(Split(h)) <= MAX_NAME + 1
    ensures encoded == Encoded(h)
  {
    var buffer := new byte[MAX_NAME + 1];
    var write: nat, length: nat, start: nat, i: nat := 0, 0, 0, 0;
    EmittingStarts(h);
    NoDotYet(h, 0);
    hide Emitting, WithPart, WithEnd, Encoded, NoDot, Extent, Split;
    while i <= |h|
      invariant start + length == i <= |h| && write <= MAX_NAME + 1
      invariant NoDot(h, start, i) && Emitting(h, buffer[..write], start)
    {
      if i == |h| || h[i] == DOT {
        EmittingNext(h, buffer[..write], start, i);
        if length == 0 {
          break;
        }
        if length > MAX_LABEL {
          return None;
        }
        write := AppendPart(buffer, write, h[start..start + length]);
        if i == |h| {
          break;
        }
        start := start + length + 1;
        length := 0;
        i := i + 1;
        NoDotYet(h, start);
        continue;
      }
      NoDotMore(h, start, i);
      length := length + 1;
      i := i + 1;
    }
    AppendEnd(buffer, write);
    write := write + 1;
    if write > 255 {
      return None;
    }
    return Some(buffer[..write]);
  }
}
