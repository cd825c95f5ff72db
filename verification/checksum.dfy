/** The Internet checksum of RFC 1071 as IP, UDP and TCP compute it. */
module Checksum {
  import opened Bytes

  const MASK: nat := 0xFFFF

  // ----- one's-complement sums -----

  /** The one's-complement value of a sum: its residue modulo 0xFFFF, where only zero itself gives zero. */
  function Ones(n: nat): (r: nat)
    ensures r <= MASK && (r == 0 <==> n == 0)
  {
    if n == 0 then 0 else (n - 1) % MASK + 1
  }

  lemma OnesUnique(n: nat, m: nat, k: int)
    requires m <= MASK && n == m + MASK * k && (m == 0 <==> n == 0)
    ensures Ones(n) == m
  {
    if n > 0 {
      assert n - 1 == m - 1 + MASK * k;
      var q := (n - 1) / MASK;
      assert (n - 1) % MASK - (m - 1) == MASK * (k - q);
    }
  }

  lemma OnesResidue(n: nat) returns (k: nat)
    ensures n == Ones(n) + MASK * k
  {
    k := if n == 0 then 0 else (n - 1) / MASK;
  }

  /** Two sums with the same residue, both zero or neither, have the same one's-complement value. */
  lemma OnesSame(n: nat, m: nat, k: int)
    requires n == m + MASK * k && (m == 0 <==> n == 0)
    ensures Ones(n) == Ones(m)
  {
    var j := OnesResidue(m);
    OnesUnique(n, Ones(m), j + k);
  }

  lemma OnesFolds(sum: nat)
    ensures Ones(sum % 0x1_0000 + sum / 0x1_0000) == Ones(sum)
  {
    OnesSame(sum, sum % 0x1_0000 + sum / 0x1_0000, sum / 0x1_0000);
  }

  /** The carries come back in until none is left. */
  method Fold(start: u32) returns (sum: u32)
    ensures sum as nat == Ones(start as nat)
  {
    sum := start;
    while sum / 0x1_0000 != 0
      invariant Ones(sum as nat) == Ones(start as nat)
      decreases sum
    {
      OnesFolds(sum as nat);
      sum := sum % 0x1_0000 + sum / 0x1_0000;
    }
    OnesUnique(sum as nat, sum as nat, 0);
  }

  // ----- sums over bytes -----

  /** A byte of the data, which a zero byte pads to whole words. */
  function At(data: seq<byte>, k: nat): nat {
    if k < |data| then data[k] as nat else 0
  }

  /** The i-th word in network order. */
  function BigWord(data: seq<byte>, i: nat): nat {
    0x100 * At(data, 2 * i) + At(data, 2 * i + 1)
  }

  /** The i-th word as a little-endian machine loads it. */
  function NativeWord(data: seq<byte>, i: nat): nat {
    At(data, 2 * i) + 0x100 * At(data, 2 * i + 1)
  }

  function BigSum(data: seq<byte>, n: nat): nat {
    if n == 0 then 0 else BigSum(data, n - 1) + BigWord(data, n - 1)
  }

  function NativeSum(data: seq<byte>, n: nat): nat {
    if n == 0 then 0 else NativeSum(data, n - 1) + NativeWord(data, n - 1)
  }

  function Words(data: seq<byte>): nat {
    (|data| + 1) / 2
  }

  lemma {:induction false} SumsBounded(data: seq<byte>, n: nat)
    ensures BigSum(data, n) <= MASK * n && NativeSum(data, n) <= MASK * n
  {
    if n > 0 {
      SumsBounded(data, n - 1);
    }
  }

  /** Swapping the bytes of every word multiplies the sum by 256, as far as 0xFFFF can tell. */
  lemma {:induction false} NativeIsSwapped(data: seq<byte>, n: nat) returns (k: nat)
    ensures 0x100 * BigSum(data, n) == NativeSum(data, n) + MASK * k
    ensures BigSum(data, n) == 0 <==> NativeSum(data, n) == 0
  {
    k := 0;
    if n > 0 {
      k := NativeIsSwapped(data, n - 1);
      k := k + At(data, 2 * (n - 1));
    }
  }

  /** Writing a word into a zeroed field adds the word to the sum. */
  lemma {:induction false} FieldAdds(data: seq<byte>, done: seq<byte>, field: nat, n: nat)
    requires |done| == |data| && 2 * field + 1 < |data|
    requires data[2 * field] == 0 && data[2 * field + 1] == 0
    requires forall k :: 0 <= k < |data| && k / 2 != field ==> done[k] == data[k]
    ensures BigSum(done, n) == BigSum(data, n) + if field < n then BigWord(done, field) else 0
  {
    if n > 0 {
      FieldAdds(data, done, field, n - 1);
    }
  }

  /** What a loop over the words adds at byte position i. */
  lemma WordAt(data: seq<byte>, i: nat)
    requires i < |data| <= MASK && i % 2 == 0
    ensures BigSum(data, (i + 2) / 2) == BigSum(data, i / 2) + 0x100 * At(data, i) + At(data, i + 1)
    ensures NativeSum(data, (i + 2) / 2) == NativeSum(data, i / 2) + At(data, i) + 0x100 * At(data, i + 1)
    ensures BigSum(data, i / 2) <= MASK * 0x7FFF && NativeSum(data, i / 2) <= MASK * 0x7FFF
    ensures i + 2 >= |data| ==> Words(data) == (i + 2) / 2
  {
    var n := i / 2;
    SumsBounded(data, n);
    assert i == 2 * n && (i + 2) / 2 == n + 1;
  }

  // ----- the three routines -----

  method IpChecksum(data: seq<byte>) returns (checksum: u16)
    requires |data| <= MASK
    ensures checksum as nat == MASK - Ones(NativeSum(data, Words(data)))
  {
    hide BigSum, Ones;
    var sum: u32 := 0;
    var ptr, len := 0, |data|;
    assert NativeSum(data, 0) == 0;
    hide NativeSum;
    while len > 1
      invariant ptr + len == |data| && ptr % 2 == 0 && 0 <= len
      invariant sum as nat == NativeSum(data, ptr / 2)
    {
      WordAt(data, ptr);
      sum := sum + (data[ptr] as u32 + 0x100 * data[ptr + 1] as u32);
      ptr, len := ptr + 2, len - 2;
    }
    if len == 1 {
      WordAt(data, ptr);
      sum := sum + data[ptr] as u32;
    }
    sum := Fold(sum);
    checksum := 0xFFFF - sum as u16;
  }

  /** The words of the pseudo header that UDP and TCP put in front. */
  function Pseudo(src: u32, dst: u32, protocol: nat, length: nat): nat {
    src as nat / 0x1_0000 + src as nat % 0x1_0000 + dst as nat / 0x1_0000 + dst as nat % 0x1_0000 + protocol + length
  }

  function Packet(src: u32, dst: u32, protocol: nat, data: seq<byte>): nat {
    Pseudo(src, dst, protocol, |data|) + BigSum(data, Words(data))
  }

  // ----- the same sums over bytes -----

  /** A 16-bit number in network order. */
  function Network(n: nat): seq<byte>
    requires n < 0x1_0000
  {
    [(n / 0x100) as byte, (n % 0x100) as byte]
  }

  function Address(x: u32): seq<byte> {
    Network(x as nat / 0x1_0000) + Network(x as nat % 0x1_0000)
  }

  /** The pseudo header as it would stand in front of the packet: addresses, zero, protocol, length. */
  function PseudoHeader(src: u32, dst: u32, protocol: nat, length: nat): seq<byte>
    requires protocol < 0x100 && length < 0x1_0000
  {
    Address(src) + Address(dst) + ([0, protocol as byte] + Network(length))
  }

  /** Every byte counts: the ones at even positions 256 times, the others once. */
  function ByteSum(data: seq<byte>): nat {
    if data == [] then 0
    else ByteSum(data[..|data| - 1]) + (if |data| % 2 == 1 then 0x100 else 1) * data[|data| - 1] as nat
  }

  lemma {:induction false} SumOfBytes(data: seq<byte>, n: nat)
    requires n <= |data|
    ensures ByteSum(data[..n]) ==
      if n % 2 == 0 then BigSum(data, n / 2) else BigSum(data, n / 2) + 0x100 * data[n - 1] as nat
  {
    if n > 0 {
      assert data[..n][..n - 1] == data[..n - 1];
      SumOfBytes(data, n - 1);
      if n % 2 == 0 {
        assert n / 2 - 1 == (n - 1) / 2;
      }
    }
  }

  /** The sum over the words of data of even or odd length counts every byte. */
  lemma SumCountsBytes(data: seq<byte>)
    ensures BigSum(data, Words(data)) == ByteSum(data)
  {
    assert data[..|data|] == data;
    SumOfBytes(data, |data|);
  }

  lemma {:induction false} SumsAppend(a: seq<byte>, b: seq<byte>)
    requires |a| % 2 == 0
    ensures ByteSum(a + b) == ByteSum(a) + ByteSum(b)
  {
    if b == [] {
      assert a + b == a;
    } else {
      assert (a + b)[..|a + b| - 1] == a + b[..|b| - 1];
      SumsAppend(a, b[..|b| - 1]);
    }
  }

  lemma PairSum(high: byte, low: byte)
    ensures ByteSum([high, low]) == 0x100 * high as nat + low as nat
  {
    assert [high, low][..1] == [high];
    assert [high][..0] == [];
    assert ByteSum([high]) == 0x100 * high as nat;
  }

  lemma NetworkSum(n: nat)
    requires n < 0x1_0000
    ensures ByteSum(Network(n)) == n
  {
    PairSum((n / 0x100) as byte, (n % 0x100) as byte);
  }

  lemma AddressSum(x: u32)
    ensures ByteSum(Address(x)) == x as nat / 0x1_0000 + x as nat % 0x1_0000 && |Address(x)| == 4
  {
    NetworkSum(x as nat / 0x1_0000);
    NetworkSum(x as nat % 0x1_0000);
    SumsAppend(Network(x as nat / 0x1_0000), Network(x as nat % 0x1_0000));
  }

  lemma PseudoSums(src: u32, dst: u32, protocol: nat, length: nat)
    requires protocol < 0x100 && length < 0x1_0000
    ensures Pseudo(src, dst, protocol, length) == ByteSum(PseudoHeader(src, dst, protocol, length))
    ensures |PseudoHeader(src, dst, protocol, length)| == 12
  {
    hide ByteSum, Address;
    AddressSum(src);
    AddressSum(dst);
    PairSum(0, protocol as byte);
    NetworkSum(length);
    SumsAppend([0, protocol as byte], Network(length));
    SumsAppend(Address(src), Address(dst));
    SumsAppend(Address(src) + Address(dst), [0, protocol as byte] + Network(length));
  }

  /** The packet's sum is that of all bytes of the pseudo header and the packet behind it. */
  lemma PacketSums(src: u32, dst: u32, protocol: nat, data: seq<byte>)
    requires protocol < 0x100 && |data| < 0x1_0000
    ensures Packet(src, dst, protocol, data) == ByteSum(PseudoHeader(src, dst, protocol, |data|) + data)
  {
    hide ByteSum, PseudoHeader, Pseudo, BigSum;
    PseudoSums(src, dst, protocol, |data|);
    SumCountsBytes(data);
    SumsAppend(PseudoHeader(src, dst, protocol, |data|), data);
  }

  const UDP: nat := 17
  const TCP: nat := 6

  method PseudoSum(src: u32, dst: u32, protocol: u32, length: u32) returns (sum: u32)
    requires protocol < 0x100 && length <= 0xFFFF
    ensures sum as nat == Pseudo(src, dst, protocol as nat, length as nat) <= 0x6_0000
  {
    sum := 0;
    sum := sum + src / 0x1_0000 % 0x1_0000;
    sum := sum + src % 0x1_0000;
    sum := sum + dst / 0x1_0000 % 0x1_0000;
    sum := sum + dst % 0x1_0000;
    sum := sum + protocol;
    sum := sum + length;
  }

  method UdpChecksum(src: u32, dst: u32, packet: seq<byte>) returns (checksum: u16)
    requires |packet| <= MASK
    ensures var sum := 0xFFFF - Ones(Packet(src, dst, 17, packet));
      checksum as nat == if sum == 0 then 0xFFFF else sum
  {
    var sum := PseudoSum(src, dst, UDP as u32, |packet| as u32);
    ghost var base := sum as nat;
    hide Pseudo, Ones, BigSum, Words;
    var ptr, len := 0, |packet|;
    while len > 1
      invariant ptr + len == |packet| && ptr % 2 == 0 && 0 <= len
      invariant sum as nat == base + BigSum(packet, ptr / 2)
    {
      WordAt(packet, ptr);
      sum := sum + (0x100 * packet[ptr] as u32 + packet[ptr + 1] as u32);
      ptr, len := ptr + 2, len - 2;
    }
    if len > 0 {
      WordAt(packet, ptr);
      sum := sum + 0x100 * packet[ptr] as u32;
    }
    sum := Fold(sum);
    checksum := 0xFFFF - sum as u16;
    if checksum == 0 {
      checksum := 0xFFFF;
    }
  }

  /** The segment is the 20-byte header and the payload behind it. */
  method TcpChecksum(src: u32, dst: u32, segment: seq<byte>) returns (checksum: u16)
    requires 20 <= |segment| <= MASK
    ensures checksum as nat == 0xFFFF - Ones(Packet(src, dst, 6, segment))
  {
    var sum := PseudoSum(src, dst, TCP as u32, |segment| as u32);
    ghost var base := sum as nat;
    hide Pseudo, Ones, BigSum, Words;
    var i := 0;
    while i < |segment| - 1
      invariant 0 <= i <= |segment| && i % 2 == 0
      invariant sum as nat == base + BigSum(segment, i / 2)
    {
      WordAt(segment, i);
      sum := sum + (0x100 * segment[i] as u32 + segment[i + 1] as u32);
      i := i + 2;
    }
    if |segment| % 2 == 1 {
      WordAt(segment, i);
      sum := sum + 0x100 * segment[|segment| - 1] as u32;
    }
    sum := Fold(sum);
    checksum := 0xFFFF - sum as u16;
  }

  // ----- what goes on the wire -----

  function Bswap16(x: u16): u16 {
    x % 0x100 * 0x100 + x / 0x100 % 0x100
  }

  /** The two bytes a little-endian machine stores for a 16-bit number. */
  function Stored(x: u16): seq<byte> {
    [(x % 0x100) as byte, (x / 0x100) as byte]
  }

  /** The packet with a 16-bit number stored at a word-aligned field. */
  function Store(data: seq<byte>, field: nat, x: u16): seq<byte>
    requires 2 * field + 1 < |data|
  {
    data[..2 * field] + Stored(x) + data[2 * field + 2..]
  }

  /** A finished packet sums to 0xFFFF at the receiver exactly when the field completes the sum. */
  lemma CompletesExactly(sum: nat, x: nat)
    requires 0 < sum && x <= MASK
    ensures var c := MASK - Ones(sum);
      Ones(sum + x) == MASK <==> x == c || (c == 0 && x == MASK)
  {
    var c := MASK - Ones(sum);
    var k := OnesResidue(sum);
    var j := OnesResidue(sum + x);
    if x == c || (c == 0 && x == MASK) {
      OnesUnique(sum + x, MASK, if x == c then k else k + 1);
    }
    if Ones(sum + x) == MASK {
      assert MASK * (j + 1 - k) == Ones(sum) + x;
      assert x - c == MASK * (j - k);
    }
  }

  lemma StoreReads(data: seq<byte>, field: nat, x: u16)
    requires 2 * field + 1 < |data|
    ensures var done := Store(data, field, Bswap16(x));
      && |done| == |data| && BigWord(done, field) == x as nat
      && forall k :: 0 <= k < |data| && k / 2 != field ==> done[k] == data[k]
  {
    var high, low := x / 0x100, x % 0x100;
    assert Bswap16(x) == 0x100 * low + high;
    assert Stored(Bswap16(x)) == [high as byte, low as byte];
  }

  lemma StoredSum(data: seq<byte>, field: nat, x: u16)
    requires 2 * field + 1 < |data| && data[2 * field] == 0 && data[2 * field + 1] == 0
    ensures var done := Store(data, field, Bswap16(x));
      |done| == |data| && BigSum(done, Words(done)) == BigSum(data, Words(data)) + x as nat
  {
    hide Bswap16, Store, BigWord, BigSum;
    StoreReads(data, field, x);
    FieldAdds(data, Store(data, field, Bswap16(x)), field, Words(data));
  }

  /**
   * Over a UDP datagram of even or odd length the receiver finds 0xFFFF when the checksum field holds
   * what the sender stored, and for no other field value: the zero rule leaves one of the two zeros.
   */
  lemma UdpAccepted(src: u32, dst: u32, packet: seq<byte>, x: u16)
    requires 8 <= |packet| && packet[6] == 0 && packet[7] == 0
    ensures var sum := MASK - Ones(Packet(src, dst, UDP, packet));
      Ones(Packet(src, dst, UDP, Store(packet, 3, Bswap16(x)))) == MASK <==>
        x as nat == (if sum == 0 then 0xFFFF else sum) || (x == 0 && sum == 0)
  {
    StoredSum(packet, 3, x);
    CompletesExactly(Packet(src, dst, UDP, packet), x as nat);
  }

  lemma TcpAccepted(src: u32, dst: u32, segment: seq<byte>, x: u16)
    requires 20 <= |segment| && segment[16] == 0 && segment[17] == 0
    ensures var sum := MASK - Ones(Packet(src, dst, TCP, segment));
      Ones(Packet(src, dst, TCP, Store(segment, 8, Bswap16(x)))) == MASK <==>
        x as nat == sum || (x == 0xFFFF && sum == 0)
  {
    StoredSum(segment, 8, x);
    CompletesExactly(Packet(src, dst, TCP, segment), x as nat);
  }

  // ----- what IP carries of a segment -----

  const CARRIED: nat := 1500

  /** ip_send takes the first 1500 bytes, whatever the checksum was computed over. */
  function Carried(payload: seq<byte>): seq<byte> {
    if |payload| > CARRIED then payload[..CARRIED] else payload
  }

  lemma OnesFull(n: nat)
    ensures Ones(n) == MASK <==> n > 0 && n % MASK == 0
  {
    var k := OnesResidue(n);
    if n > 0 && n % MASK == 0 {
      OnesUnique(n, MASK, n / MASK - 1);
    }
  }

  /** The sum over the data is the sum over its first 750 words and over the rest. */
  lemma {:induction false} SumSplits(data: seq<byte>, n: nat)
    requires |data| > CARRIED
    ensures BigSum(data, 750 + n) == BigSum(data[..CARRIED], 750) + BigSum(data[CARRIED..], n)
  {
    if n == 0 {
      SumOfFront(data, 750);
    } else {
      SumSplits(data, n - 1);
      assert BigWord(data, 750 + (n - 1)) == BigWord(data[CARRIED..], n - 1);
    }
  }

  lemma {:induction false} SumOfFront(data: seq<byte>, n: nat)
    requires |data| > CARRIED && n <= 750
    ensures BigSum(data, n) == BigSum(data[..CARRIED], n)
  {
    if n > 0 {
      SumOfFront(data, n - 1);
    }
  }

  /** What the cut takes out of the receiver's sum: the words behind it, and the length in the pseudo header. */
  function Missing(segment: seq<byte>): nat {
    if |segment| <= CARRIED then 0
    else BigSum(segment[CARRIED..], Words(segment[CARRIED..])) + (|segment| - CARRIED)
  }

  lemma CutSum(src: u32, dst: u32, segment: seq<byte>)
    ensures Packet(src, dst, TCP, segment) == Packet(src, dst, TCP, Carried(segment)) + Missing(segment)
  {
    if |segment| > CARRIED {
      SumSplits(segment, Words(segment[CARRIED..]));
    }
  }

  /**
   * A segment arrives with the sum 0xFFFF exactly when it was short enough to be carried whole, or when
   * what was cut off happens to vanish modulo 0xFFFF.
   */
  lemma TcpArrives(src: u32, dst: u32, segment: seq<byte>, x: u16)
    requires 20 <= |segment| && segment[16] == 0 && segment[17] == 0
    requires x as nat == MASK - Ones(Packet(src, dst, TCP, segment))
    ensures Ones(Packet(src, dst, TCP, Carried(Store(segment, 8, Bswap16(x))))) == MASK <==>
              |segment| <= CARRIED || Missing(segment) % MASK == 0
  {
    var done := Store(segment, 8, Bswap16(x));
    TcpAccepted(src, dst, segment, x);
    CutSum(src, dst, done);
    assert Missing(done) == Missing(segment) by {
      assert |segment| > CARRIED ==> done[CARRIED..] == segment[CARRIED..];
    }
    hide Carried, Missing, Store, BigSum, Ones;
    var whole, cut := Packet(src, dst, TCP, done), Packet(src, dst, TCP, Carried(done));
    OnesFull(whole);
    OnesFull(cut);
    DropMultiple(whole, cut, Missing(segment));
    NothingMissing(segment);
  }

  lemma NothingMissing(segment: seq<byte>)
    ensures |segment| <= CARRIED ==> Missing(segment) == 0
  {
  }

  lemma DropMultiple(whole: nat, cut: nat, missing: nat)
    requires whole == cut + missing && whole % MASK == 0
    ensures cut % MASK == 0 <==> missing % MASK == 0
  {
  }

  /** A segment with 2000 bytes of zeros behind its header is refused by every receiver. */
  lemma LongSegmentRefused(src: u32, dst: u32, x: u16)
    requires x as nat == MASK - Ones(Packet(src, dst, TCP, seq(2020, _ => 0)))
    ensures Ones(Packet(src, dst, TCP, Carried(Store(seq(2020, _ => 0), 8, Bswap16(x))))) != MASK
  {
    var segment: seq<byte> := seq(2020, _ => 0);
    TcpArrives(src, dst, segment, x);
    ZeroSum(segment[CARRIED..], Words(segment[CARRIED..]));
    assert Missing(segment) == 520;
  }

  lemma {:induction false} ZeroSum(data: seq<byte>, n: nat)
    requires forall k :: 0 <= k < |data| ==> data[k] == 0
    ensures BigSum(data, n) == 0
  {
    if n > 0 {
      ZeroSum(data, n - 1);
    }
  }

  lemma SwapResidue(x: u16) returns (k: nat)
    ensures 0x100 * x as nat == Bswap16(x) as nat + MASK * k && (x == 0 <==> Bswap16(x) == 0)
  {
    var high, low := x / 0x100, x % 0x100;
    assert x == 0x100 * high + low && Bswap16(x) == 0x100 * low + high;
    k := high as nat;
  }

  /** Swapping the bytes of the sum is summing the swapped words. */
  lemma {:induction false} OnesSwapped(data: seq<byte>, n: nat)
    ensures Ones(NativeSum(data, n)) == Bswap16(Ones(BigSum(data, n)) as u16) as nat
  {
    hide Ones, Bswap16, NativeSum, BigSum;
    var k := NativeIsSwapped(data, n);
    var big := Ones(BigSum(data, n));
    var j := OnesResidue(BigSum(data, n));
    var high := SwapResidue(big as u16);
    OnesUnique(NativeSum(data, n), Bswap16(big as u16) as nat, high + 0x100 * j - k);
  }

  lemma SwapComplement(x: u16)
    ensures Stored(0xFFFF - Bswap16(x)) == Stored(Bswap16(0xFFFF - x))
  {
    var high, low := x / 0x100, x % 0x100;
    assert x == 0x100 * high + low;
    assert 0xFFFF - x == 0x100 * (0xFF - high) + (0xFF - low);
    assert Bswap16(0xFFFF - x) == 0x100 * (0xFF - low) + (0xFF - high);
  }

  lemma {:induction false} FirstByteCounts(data: seq<byte>, n: nat)
    requires 0 < n && |data| > 0 && data[0] != 0
    ensures BigSum(data, n) > 0
  {
    if n > 1 {
      FirstByteCounts(data, n - 1);
    }
  }

  /** The native-order checksum stored as it is leaves the bytes that the network-order one leaves once swapped. */
  lemma SameBytesOnTheWire(data: seq<byte>, native: u16, big: u16)
    requires native as nat == MASK - Ones(NativeSum(data, Words(data)))
    requires big as nat == MASK - Ones(BigSum(data, Words(data)))
    ensures Stored(native) == Stored(Bswap16(big))
  {
    hide Bswap16, Stored, Ones;
    OnesSwapped(data, Words(data));
    SwapComplement(Ones(BigSum(data, Words(data))) as u16);
  }

  /** So a finished IP header sums to 0xFFFF in network order, though it was summed in native order. */
  lemma IpHeaderAccepted(header: seq<byte>, native: u16)
    requires 20 <= |header| && header[0] == 0x45 && header[10] == 0 && header[11] == 0
    requires native as nat == MASK - Ones(NativeSum(header, Words(header)))
    ensures var done := Store(header, 5, native);
      Ones(BigSum(done, Words(done))) == MASK
  {
    var big := (MASK - Ones(BigSum(header, Words(header)))) as u16;
    SameBytesOnTheWire(header, native, big);
    StoredSum(header, 5, big);
    FirstByteCounts(header, Words(header));
    CompletesExactly(BigSum(header, Words(header)), big as nat);
  }
}
