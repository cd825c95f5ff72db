/** DHCP options: the writer that lays them out and the reader that finds them again. */
module Dhcp {
  import opened Options
  import opened Bytes

  const PAD: byte := 0
  const END: byte := 255

  /** An option as a caller asks for it. */
  datatype Field = Field(code: byte, data: seq<byte>)

  /** Section 2 of RFC 2132 keeps two codes without a length; a length is one byte. */
  predicate Sound(f: Field) {
    f.code != PAD && f.code != END && |f.data| <= 255
  }

  ghost predicate AllSound(fields: seq<Field>) {
    forall i :: 0 <= i < |fields| ==> Sound(fields[i])
  }

  /** One option on the wire; its length keeps only the low byte. */
  function Entry(f: Field): seq<byte> {
    [f.code, (|f.data| % 0x100) as byte] + f.data
  }

  function Laid(fields: seq<Field>): seq<byte> {
    if fields == [] then [] else Laid(fields[..|fields| - 1]) + Entry(fields[|fields| - 1])
  }

  // ----- reading -----

  /** The walk over the options from p on. */
  function Find(options: seq<byte>, p: nat, code: byte): (found: Option<nat>)
    ensures found.Some? ==> found.value + 1 < |options| && options[found.value] == code
    ensures found.Some? ==> found.value + 2 + options[found.value + 1] as nat <= |options|
    decreases |options| - p
  {
    if p >= |options| || options[p] == END then None
    else if options[p] == PAD then Find(options, p + 1, code)
    else if p + 1 >= |options| then None
    else
      var next := p + 2 + options[p + 1] as nat;
      if next > |options| then None else if options[p] == code then Some(p) else Find(options, next, code)
  }

  method Get(options: array<byte>, code: byte) returns (found: Option<nat>)
    ensures found == Find(options[..], 0, code)
  {
    var ptr: nat := 0;
    while ptr < options.Length
      invariant Find(options[..], 0, code) == Find(options[..], ptr, code)
      decreases options.Length - ptr
    {
      if options[ptr] == END {
        break;
      }
      if options[ptr] == PAD {
        ptr := ptr + 1;
        continue;
      }
      if ptr + 1 >= options.Length {
        break;
      }
      var len := options[ptr + 1] as nat;
      if ptr + 2 + len > options.Length {
        break;
      }
      if options[ptr] == code {
        return Some(ptr);
      }
      ptr := ptr + 2 + len;
    }
    return None;
  }

  /** The two codes without a length are never found, in any buffer. */
  lemma {:induction false} MarkersNotFound(options: seq<byte>, p: nat, code: byte)
    requires code == PAD || code == END
    ensures Find(options, p, code) == None
    decreases |options| - p
  {
    if p < |options| && options[p] == PAD {
      MarkersNotFound(options, p + 1, code);
    } else if p + 1 < |options| && options[p] != END && p + 2 + options[p + 1] as nat <= |options| {
      MarkersNotFound(options, p + 2 + options[p + 1] as nat, code);
    }
  }

  // ----- reading what was written -----

  /** The first field from i on with this code, or the number of fields. */
  function First(fields: seq<Field>, i: nat, code: byte): (k: nat)
    requires i <= |fields|
    ensures i <= k <= |fields| && (k < |fields| ==> fields[k].code == code)
    ensures forall j :: i <= j < k ==> fields[j].code != code
    decreases |fields| - i
  {
    if i == |fields| || fields[i].code == code then i else First(fields, i + 1, code)
  }

  /** Where the i-th field stands. */
  function Place(fields: seq<Field>, i: nat): nat
    requires i <= |fields|
  {
    |Laid(fields[..i])|
  }

  /** Nothing can be read from p on: the end mark, or padding up to the end of the buffer. */
  ghost predicate Over(options: seq<byte>, p: nat) {
    (p < |options| && options[p] == END) || forall k :: p <= k < |options| ==> options[k] == PAD
  }

  /** The fields stand in the buffer one behind the other, and nothing readable follows. */
  ghost predicate Holds(options: seq<byte>, fields: seq<Field>) {
    Laid(fields) <= options && Over(options, |Laid(fields)|)
  }

  lemma {:induction false} OverFindsNothing(options: seq<byte>, p: nat, code: byte)
    requires Over(options, p)
    ensures Find(options, p, code) == None
    decreases |options| - p
  {
    if p < |options| && options[p] == PAD {
      OverFindsNothing(options, p + 1, code);
    }
  }

  lemma {:induction false} LaidPrefix(fields: seq<Field>, i: nat)
    requires i <= |fields|
    ensures Laid(fields[..i]) <= Laid(fields)
  {
    if i == |fields| {
      assert fields[..i] == fields;
    } else {
      var before := fields[..|fields| - 1];
      LaidPrefix(before, i);
      assert before[..i] == fields[..i];
    }
  }

  lemma FieldStands(options: seq<byte>, fields: seq<Field>, i: nat)
    requires Laid(fields) <= options && i < |fields|
    ensures var p := Place(fields, i); var f := fields[i];
      && Place(fields, i + 1) == p + 2 + |f.data| <= |options|
      && options[p] == f.code && options[p + 1] == (|f.data| % 0x100) as byte
      && options[p + 2..p + 2 + |f.data|] == f.data
  {
    hide Laid, Entry;
    LaidPrefix(fields, i + 1);
    assert fields[..i + 1] == fields[..i] + [fields[i]];
    LaidMore(fields[..i], fields[i]);
    PrefixOfPrefix(Laid(fields[..i + 1]), Laid(fields), options);
    SliceAfter(options, Laid(fields[..i]), Entry(fields[i]));
    EntryBytes(options, Place(fields, i), fields[i]);
  }

  lemma PrefixOfPrefix(a: seq<byte>, b: seq<byte>, c: seq<byte>)
    requires a <= b <= c
    ensures a <= c
  {
  }

  lemma SliceAfter(options: seq<byte>, before: seq<byte>, bytes: seq<byte>)
    requires before + bytes <= options
    ensures options[|before|..|before| + |bytes|] == bytes
  {
    assert (before + bytes)[|before|..] == bytes;
  }

  lemma EntryBytes(options: seq<byte>, p: nat, f: Field)
    requires p + |Entry(f)| <= |options| && options[p..p + |Entry(f)|] == Entry(f)
    ensures |Entry(f)| == 2 + |f.data| && options[p] == f.code && options[p + 1] == (|f.data| % 0x100) as byte
    ensures options[p + 2..p + 2 + |f.data|] == f.data
  {
    var e := options[p..p + |Entry(f)|];
    assert options[p] == e[0] && options[p + 1] == e[1];
    assert options[p + 2..p + 2 + |f.data|] == e[2..];
  }

  lemma FindStep(options: seq<byte>, p: nat, code: byte)
    requires p + 1 < |options| && options[p] != PAD && options[p] != END
    requires p + 2 + options[p + 1] as nat <= |options|
    ensures Find(options, p, code) ==
              if options[p] == code then Some(p) else Find(options, p + 2 + options[p + 1] as nat, code)
  {
  }

  /** Sound fields with other codes are passed over. */
  lemma {:induction false} FindFrom(options: seq<byte>, fields: seq<Field>, i: nat, n: nat, code: byte)
    requires Holds(options, fields) && i <= n <= |fields|
    requires forall j :: i <= j < n ==> Sound(fields[j]) && fields[j].code != code
    ensures Find(options, Place(fields, i), code) == Find(options, Place(fields, n), code)
    decreases n - i
  {
    hide Laid, Place, Over, Find;
    if i < n {
      FieldStands(options, fields, i);
      FindStep(options, Place(fields, i), code);
      FindFrom(options, fields, i + 1, n, code);
    }
  }

  /** The reader returns field k: its code, its exact length, and its bytes. */
  ghost predicate Whole(options: seq<byte>, found: Option<nat>, f: Field) {
    && found.Some? && found.value + 2 + |f.data| <= |options|
    && options[found.value] == f.code && options[found.value + 1] as nat == |f.data|
    && options[found.value + 2..found.value + 2 + |f.data|] == f.data
  }

  /**
   * The reader finds the first option written with a code if and only if that option has a code of its
   * own and at most 255 bytes, as long as the options before it do; and none if none was written.
   */
  lemma {:induction false} FindsFirst(options: seq<byte>, fields: seq<Field>, code: byte)
    requires Holds(options, fields) && AllSound(fields[..First(fields, 0, code)])
    ensures var k := First(fields, 0, code);
      if k == |fields| then Find(options, 0, code) == None
      else Whole(options, Find(options, 0, code), fields[k]) <==> Sound(fields[k])
  {
    assert fields[..0] == [] && Place(fields, 0) == 0;
    var k := First(fields, 0, code);
    forall j | 0 <= j < k ensures Sound(fields[j]) {
      assert Sound(fields[..k][j]);
    }
    FindFrom(options, fields, 0, k, code);
    if k == |fields| {
      assert fields[..k] == fields;
      OverFindsNothing(options, Place(fields, k), code);
    } else if code == PAD || code == END {
      MarkersNotFound(options, 0, code);
    } else {
      FindAt(options, fields, k);
    }
  }

  /** An option with the end code, behind sound ones, hides every code that was not written before it. */
  lemma EndHides(options: seq<byte>, fields: seq<Field>, i: nat, code: byte)
    requires Holds(options, fields) && i < |fields| && fields[i].code == END
    requires forall j :: 0 <= j < i ==> Sound(fields[j]) && fields[j].code != code
    ensures Find(options, 0, code) == None
  {
    assert fields[..0] == [] && Place(fields, 0) == 0;
    FindFrom(options, fields, 0, i, code);
    FieldStands(options, fields, i);
  }

  lemma FindAt(options: seq<byte>, fields: seq<Field>, k: nat)
    requires Holds(options, fields) && k < |fields| && fields[k].code != PAD && fields[k].code != END
    ensures var found := Find(options, Place(fields, k), fields[k].code);
      Whole(options, found, fields[k]) <==> |fields[k].data| <= 255
  {
    hide Laid, Over, Find, Place, Holds;
    FieldAt(options, fields, k);
    FindStep(options, Place(fields, k), fields[k].code);
  }

  lemma FieldAt(options: seq<byte>, fields: seq<Field>, k: nat)
    requires Holds(options, fields) && k < |fields|
    ensures var p := Place(fields, k); var f := fields[k];
      && p + 2 + |f.data| <= |options|
      && options[p] == f.code && options[p + 1] as nat == |f.data| % 0x100
      && options[p + 2..p + 2 + |f.data|] == f.data
  {
    FieldStands(options, fields, k);
  }

  /** An instance: an option of 256 bytes claims to be empty, and its data is read as further options. */
  lemma LongOptionMisread(data: seq<byte>, rest: seq<byte>, code: byte)
    requires |data| == 256 && data[0] == code && data[1] == 1 && code != PAD && code != END && code != 12
    ensures Find(Entry(Field(12, data)) + rest, 0, code) == Some(2)
  {
    var options := Entry(Field(12, data)) + rest;
    assert options[0] == 12 && options[1] == 0 && options[2] == code && options[3] == 1 && |options| >= 258;
    hide Entry;
    assert Find(options, 2, code) == Some(2);
  }

  // ----- writing -----

  /** The buffer with these bytes written at a position. */
  function Splice(was: seq<byte>, at: nat, bytes: seq<byte>): (now: seq<byte>)
    requires at + |bytes| <= |was|
    ensures |now| == |was|
  {
    was[..at] + bytes + was[at + |bytes|..]
  }

  lemma SpliceNothing(was: seq<byte>, at: nat, data: seq<byte>)
    requires at <= |was|
    ensures Splice(was, at, data[..0]) == was
  {
  }

  lemma SpliceNext(was: seq<byte>, at: nat, data: seq<byte>, i: nat)
    requires i < |data| && at + |data| <= |was|
    ensures Splice(was, at, data[..i])[at + i := data[i]] == Splice(was, at, data[..i + 1])
  {
  }

  lemma SpliceTwice(was: seq<byte>, at: nat, a: seq<byte>, b: seq<byte>)
    requires at + |a| + |b| <= |was|
    ensures Splice(Splice(was, at, a), at + |a|, b) == Splice(was, at, a + b)
  {
  }

  lemma LaidMore(fields: seq<Field>, f: Field)
    ensures Laid(fields + [f]) == Laid(fields) + Entry(f)
  {
    assert (fields + [f])[..|fields|] == fields;
  }

  /** Behind the fields the buffer is blank, so another one goes there. */
  lemma BlankHolds(was: seq<byte>, fields: seq<Field>, f: Field)
    requires Holds(was, fields) && |Laid(fields)| + |Entry(f)| <= |was|
    requires forall k :: |Laid(fields)| <= k < |was| ==> was[k] == PAD
    ensures var now := Splice(was, |Laid(fields)|, Entry(f)); var after := fields + [f];
      && Holds(now, after) && |Laid(after)| == |Laid(fields)| + |Entry(f)|
      && forall k :: |Laid(after)| <= k < |now| ==> now[k] == PAD
  {
    LaidMore(fields, f);
  }

  /** Behind the end mark anything may be written. */
  lemma BehindHolds(was: seq<byte>, fields: seq<Field>, at: nat, bytes: seq<byte>)
    requires Holds(was, fields) && |Laid(fields)| < at && at + |bytes| <= |was| && was[|Laid(fields)|] == END
    ensures var now := Splice(was, at, bytes);
      Holds(now, fields) && now[|Laid(fields)|] == END
  {
  }

  class OptionsWriter {
    const buffer: array<byte>
    var offset: nat
    ghost var fields: seq<Field>
    ghost var closed: bool

    ghost predicate Valid()
      reads this, buffer
    {
      && offset <= buffer.Length && Holds(buffer[..], fields)
      && (closed ==> |Laid(fields)| < offset && buffer[..][|Laid(fields)|] == END)
      && (!closed ==> offset == |Laid(fields)| && forall k :: offset <= k < buffer.Length ==> buffer[..][k] == PAD)
    }

    /** A writer over a zeroed buffer. */
    constructor (buffer: array<byte>)
      requires forall k :: 0 <= k < buffer.Length ==> buffer[k] == PAD
      ensures Valid() && this.buffer == buffer && fields == [] && !closed
    {
      this.buffer := buffer;
      offset, fields, closed := 0, [], false;
    }

    /** Writes an option if it fits; behind an end mark it is written but no reader comes to it. */
    method AddOption(code: byte, data: seq<byte>) returns (ok: bool)
      requires Valid()
      modifies this`offset, this`fields, buffer
      ensures Valid() && closed == old(closed)
      ensures ok <==> old(offset) + |data| + 2 <= buffer.Length
      ensures fields == if ok && !closed then old(fields) + [Field(code, data)] else old(fields)
    {
      if offset + |data| + 2 > buffer.Length {
        return false;
      }
      ghost var f, was, at := Field(code, data), buffer[..], offset;
      hide Laid, Holds;
      if closed {
        BehindHolds(was, fields, at, Entry(f));
      } else {
        BlankHolds(was, fields, f);
      }
      hide Splice;
      PutOption(code, data);
      if !closed {
        fields := fields + [f];
      }
      ok := true;
    }

    method PutOption(code: byte, data: seq<byte>)
      requires offset + |data| + 2 <= buffer.Length
      modifies this`offset, buffer
      ensures offset == old(offset) + |data| + 2
      ensures buffer[..] == Splice(old(buffer[..]), old(offset), Entry(Field(code, data)))
    {
      hide Splice;
      ghost var was, at, len := buffer[..], offset, (|data| % 0x100) as byte;
      SpliceTwice(was, at, [code], [len]);
      SpliceTwice(was, at, [code] + [len], data);
      assert [code, len] == [code] + [len];
      WriteByte(code);
      WriteByte((|data| % 0x100) as byte);
      CopyData(data);
    }

    method WriteByte(b: byte)
      requires offset < buffer.Length
      modifies this`offset, buffer
      ensures offset == old(offset) + 1 && buffer[..] == Splice(old(buffer[..]), old(offset), [b])
    {
      buffer[offset] := b;
      offset := offset + 1;
    }

    method CopyData(data: seq<byte>)
      requires offset + |data| <= buffer.Length
      modifies this`offset, buffer
      ensures offset == old(offset) + |data| && buffer[..] == Splice(old(buffer[..]), old(offset), data)
    {
      ghost var was := buffer[..];
      SpliceNothing(was, offset, data);
      hide Splice;
      for i := 0 to |data|
        invariant offset == old(offset) && buffer[..] == Splice(was, offset, data[..i])
      {
        SpliceNext(was, offset, data, i);
        buffer[offset + i] := data[i];
      }
      assert data[..|data|] == data;
      offset := offset + |data|;
    }

    /** Writes the end mark if there is room for it. */
    method Shutdown() returns (ok: bool)
      requires Valid()
      modifies this`offset, this`closed, buffer
      ensures Valid() && fields == old(fields)
      ensures ok <==> old(offset) < buffer.Length
      ensures closed == (old(closed) || ok)
    {
      if offset >= buffer.Length {
        return false;
      }
      WriteByte(END);
      closed := true;
      ok := true;
    }
  }
}
