/** The Internet checksum of src/net/net.c: native little-endian words are summed and folded,
    and the result is stored without byte swapping. */
module Checksum {
  import opened Common
  import opened Memory

  // ------------------------------------------------------------ the code's sums

  /** The sum of the native words of b; an odd last byte counts as a low byte. */
  function LeSum(b: seq<byte>): (r: nat)
    decreases |b|
  {
    if |b| == 0 then 0
    else if |b| == 1 then b[0] as int
    else b[0] as int + 256 * (b[1] as int) + LeSum(b[2..])
  }

  function Fold(sum: nat): (r: nat) {
    if sum < 0x1_0000 then sum else Fold(sum % 0x1_0000 + sum / 0x1_0000)
  }

  lemma FoldBound(sum: nat)
    ensures Fold(sum) < 0x1_0000
  {
    if 0x1_0000 <= sum { FoldBound(sum % 0x1_0000 + sum / 0x1_0000); }
  }

  function Fold16(sum: nat): (r: nat)
    ensures r < 0x1_0000
  {
    FoldBound(sum);
    Fold(sum)
  }

  function IpSum(b: seq<byte>): (r: nat) { 0xFFFF - Fold16(LeSum(b)) }

  // ------------------------------------------- the definition in RFC 1071

  /** 16-bit one's complement addition: the carry goes back in at the low end. */
  function OnesAdd(x: nat, y: nat): (r: nat)
    requires x < 0x1_0000 && y < 0x1_0000
    ensures r < 0x1_0000
  {
    if x + y < 0x1_0000 then x + y else x + y - 0xFFFF
  }

  /** The one's complement sum of big-endian words, an odd last byte padded with zero. */
  function RfcSum(b: seq<byte>): (r: nat)
    ensures r < 0x1_0000
    decreases |b|
  {
    if |b| == 0 then 0
    else if |b| == 1 then 256 * (b[0] as int)
    else OnesAdd(256 * (b[0] as int) + b[1] as int, RfcSum(b[2..]))
  }

  function RfcChecksum(b: seq<byte>): (r: nat) { 0xFFFF - RfcSum(b) }

  // --------------------------------------------------------- modulo 0xFFFF

  /** What folding removes: a multiple of 0xFFFF. */
  function FoldCarry(sum: nat): (r: nat) {
    if sum < 0x1_0000 then 0 else sum / 0x1_0000 + FoldCarry(sum % 0x1_0000 + sum / 0x1_0000)
  }

  /** Folding preserves the value modulo 0xFFFF and yields 0 only for an all-zero sum. */
  lemma {:induction false} FoldKeeps(sum: nat)
    ensures sum == Fold(sum) + 0xFFFF * FoldCarry(sum)
    ensures Fold(sum) == 0 <==> sum == 0
  {
    if 0x1_0000 <= sum {
      FoldKeeps(sum % 0x1_0000 + sum / 0x1_0000);
    }
  }

  /** A 16-bit value is determined by its residue, once zero is known. */
  lemma Canonical(x: nat, y: nat, k: int)
    requires x < 0x1_0000 && y < 0x1_0000 && x - y == 0xFFFF * k && (x == 0 <==> y == 0)
    ensures x == y
  {
  }

  function OddBytes(b: seq<byte>): (r: nat)
    decreases |b|
  {
    if |b| < 2 then 0 else b[1] as int + OddBytes(b[2..])
  }

  function RfcCarry(b: seq<byte>): (r: nat)
    decreases |b|
  {
    if |b| < 2 then 0
    else RfcCarry(b[2..]) + if 256 * (b[0] as int) + b[1] as int + RfcSum(b[2..]) < 0x1_0000 then 0 else 1
  }

  predicate AllZero(b: seq<byte>) { forall i | 0 <= i < |b| :: b[i] == 0 }

  /** Swapping the bytes of every word multiplies the sum by 256 modulo 0xFFFF. */
  lemma {:induction false} SwappedSums(b: seq<byte>)
    ensures 256 * LeSum(b) == RfcSum(b) + 0xFFFF * (OddBytes(b) + RfcCarry(b))
    ensures LeSum(b) == 0 <==> AllZero(b)
    ensures RfcSum(b) == 0 <==> AllZero(b)
    decreases |b|
  {
    if 2 <= |b| {
      SwappedSums(b[2..]);
      assert AllZero(b) <==> b[0] == 0 && b[1] == 0 && AllZero(b[2..]) by {
        if b[0] == 0 && b[1] == 0 && AllZero(b[2..]) {
          assert forall i | 2 <= i < |b| :: b[i] == b[2..][i - 2];
        }
        if AllZero(b) { assert forall i | 0 <= i < |b| - 2 :: b[2..][i] == b[i + 2]; }
      }
    }
  }

  function Swap(v: nat): (r: nat)
    requires v < 0x1_0000
    ensures r < 0x1_0000
  {
    256 * (v % 256) + v / 256
  }

  lemma SwapTimes(f: nat)
    requires f < 0x1_0000
    ensures 256 * f == Swap(f) + 0xFFFF * (f / 256) && (Swap(f) == 0 <==> f == 0)
  {
  }

  lemma SwapComplement(f: nat)
    requires f < 0x1_0000
    ensures Swap(0xFFFF - f) == 0xFFFF - Swap(f)
  {
    var h, l := f / 256, f % 256;
    assert 0xFFFF - f == 256 * (255 - h) + (255 - l);
  }

  /** Byte-order independence: for every buffer, storing the native result puts the same two
      bytes on the wire as the big-endian definition asks for. */
  lemma ByteOrderIndependent(b: seq<byte>)
    ensures Swap(IpSum(b)) == RfcChecksum(b)
    ensures var c := IpSum(b);
            var wire := Put16([0, 0], 0, c);
            wire[0] == RfcChecksum(b) / 256 && wire[1] == RfcChecksum(b) % 256
  {
    var s, f, r := LeSum(b), Fold16(LeSum(b)), RfcSum(b);
    SwappedSums(b);
    FoldKeeps(s);
    SwapTimes(f);
    Canonical(Swap(f), r, OddBytes(b) + RfcCarry(b) - f / 256 - 256 * FoldCarry(s));
    SwapComplement(f);
  }

  // ------------------------------------------------------ self-verification

  lemma {:induction false} SumWithField(b: seq<byte>, k: nat, v: nat)
    requires k % 2 == 0 && k + 2 <= |b| && b[k] == 0 && b[k + 1] == 0 && v < 0x1_0000
    ensures LeSum(Put16(b, k, v)) == LeSum(b) + v
    decreases |b|
  {
    var r := Put16(b, k, v);
    if k == 0 {
      assert r[2..] == b[2..];
    } else {
      SumWithField(b[2..], k - 2, v);
      assert r[2..] == Put16(b[2..], k - 2, v);
    }
  }

  lemma FoldedMax(f: nat, v: nat, g: nat, q: int)
    requires f < 0x1_0000 && v < 0x1_0000 && g < 0x1_0000 && g == f + v - 0xFFFF * q
    requires g == 0 <==> f == 0 && v == 0
    ensures g == 0xFFFF <==> v == 0xFFFF - f || (v == 0xFFFF && f == 0xFFFF)
  {
  }

  /** A message whose even-offset field was zeroed and then set to v recomputes to 0 exactly
      when v is the checksum, or its other representation of zero. */
  lemma VerifiesIff(b: seq<byte>, k: nat, v: nat)
    requires k % 2 == 0 && k + 2 <= |b| && b[k] == 0 && b[k + 1] == 0 && v < 0x1_0000
    ensures IpSum(Put16(b, k, v)) == 0 <==> v == IpSum(b) || (v == 0xFFFF && IpSum(b) == 0)
  {
    SumWithField(b, k, v);
    var s := LeSum(b);
    FoldKeeps(s);
    FoldKeeps(s + v);
    hide Fold, FoldCarry, LeSum;
    FoldedMax(Fold16(s), v, Fold16(s + v), FoldCarry(s + v) - FoldCarry(s));
  }

  // --------------------------------------------------------------- ip_checksum

  lemma {:induction false} SumBound(b: seq<byte>)
    ensures LeSum(b) <= 0x8000 * |b|
    decreases |b|
  {
    if 2 <= |b| { SumBound(b[2..]); }
  }

  lemma SumPeel(b: seq<byte>)
    ensures LeSum(b) == if |b| == 0 then 0 else if |b| == 1 then b[0] as int
                        else b[0] as int + 256 * (b[1] as int) + LeSum(b[2..])
  {
  }

  /** ip_checksum: the 32-bit accumulator never wraps for a 16-bit length. */
  /** The summing loop; the 32-bit accumulator never wraps. */
  method SumWords(buf: array<byte>, off: nat, len: nat) returns (sum: nat)
    requires len < 0x1_0000 && off + len <= buf.Length
    ensures sum == LeSum(buf[off..off + len])
  {
    hide LeSum;
    var p: nat, n: nat := off, len;
    sum := 0;
    ghost var end, whole := off + len, LeSum(buf[off..off + len]);
    SumBound(buf[off..end]);
    while 1 < n
      invariant p + n == end
      invariant sum + LeSum(buf[p..end]) == whole <= 0x8000_0000
    {
      assert buf[p..end][2..] == buf[p + 2..end];
      SumPeel(buf[p..end]);
      sum := (sum + (buf[p] as int + 256 * (buf[p + 1] as int))) % 0x1_0000_0000;
      p, n := p + 2, n - 2;
    }
    SumPeel(buf[p..end]);
    if n != 0 { sum := (sum + buf[p] as int) % 0x1_0000_0000; }
  }

  method IpChecksum(buf: array<byte>, off: nat, len: nat) returns (r: nat)
    requires len < 0x1_0000 && off + len <= buf.Length
    ensures r == IpSum(buf[off..off + len])
  {
    hide LeSum;
    var sum := SumWords(buf, off, len);
    ghost var whole := sum;
    while 0x1_0000 <= sum  // sum >> 16 is not zero
      invariant Fold(sum) == Fold(whole)
      decreases sum
    {
      sum := sum % 0x1_0000 + sum / 0x1_0000;
    }
    r := 0xFFFF - sum;
  }

  // -------------------------------------------------------------- tcp_checksum

  function PseudoHeader(src: seq<byte>, dst: seq<byte>, len: nat): (r: seq<byte>)
    requires |src| == 4 && |dst| == 4 && len < 0x1_0000
    ensures |r| == 12
  {
    src + dst + [0, 6, len / 256, len % 256]
  }

  /** The bytes tcp_checksum sums: the length it passes on is cut to 16 bits. */
  function TcpCovered(src: seq<byte>, dst: seq<byte>, data: seq<byte>): (r: seq<byte>)
    requires |src| == 4 && |dst| == 4 && |data| < 0x1_0000
  {
    (PseudoHeader(src, dst, |data|) + data)[..(12 + |data|) % 0x1_0000]
  }

  function TcpSum(src: seq<byte>, dst: seq<byte>, data: seq<byte>): (r: nat)
    requires |src| == 4 && |dst| == 4 && |data| < 0x1_0000
  {
    IpSum(TcpCovered(src, dst, data))
  }

  method CopyInto(dst: array<byte>, at: nat, src: seq<byte>)
    requires at + |src| <= dst.Length
    modifies dst
    ensures dst[at..at + |src|] == src
    ensures forall k | 0 <= k < dst.Length && !(at <= k < at + |src|) :: dst[k] == old(dst[k])
  {
    for i := 0 to |src|
      invariant forall k | 0 <= k < i :: dst[at + k] == src[k]
      invariant forall k | 0 <= k < dst.Length && !(at <= k < at + i) :: dst[k] == old(dst[k])
    {
      dst[at + i] := src[i];
    }
  }

  method TcpChecksum(src: seq<byte>, dst: seq<byte>, data: seq<byte>, memory: bool) returns (r: nat)
    requires |src| == 4 && |dst| == 4 && |data| < 0x1_0000
    ensures r == if memory then TcpSum(src, dst, data) else 0
  {
    if !memory { return 0; }
    var len := |data|;
    var tmp := new byte[12 + len];
    CopyInto(tmp, 0, src + dst + [0, 6, len / 256, len % 256]);
    CopyInto(tmp, 12, data);
    assert tmp[..] == PseudoHeader(src, dst, len) + data;
    var n := (12 + len) % 0x1_0000;
    assert tmp[0..n] == tmp[..][..n];
    r := IpChecksum(tmp, 0, n);
  }

  /** The big-endian word at k. */
  function Word(b: seq<byte>, k: nat): (w: nat)
    requires k + 2 <= |b|
    ensures w < 0x1_0000
  {
    256 * (b[k] as int) + b[k + 1] as int
  }

  lemma RfcPeel(b: seq<byte>, k: nat)
    requires k + 2 <= |b|
    ensures RfcSum(b[k..]) == OnesAdd(Word(b, k), RfcSum(b[k + 2..]))
  {
    assert b[k..][2..] == b[k + 2..];
  }

  lemma PseudoWords(src: seq<byte>, dst: seq<byte>, len: nat, data: seq<byte>)
    requires |src| == 4 && |dst| == 4 && len < 0x1_0000
    ensures var b := PseudoHeader(src, dst, len) + data;
            && b[0..] == b && b[12..] == data
            && Word(b, 0) == Word(src, 0) && Word(b, 2) == Word(src, 2)
            && Word(b, 4) == Word(dst, 0) && Word(b, 6) == Word(dst, 2)
            && Word(b, 8) == 6 && Word(b, 10) == len
  {
  }

  lemma SumRange(b: seq<byte>)
    ensures IpSum(b) < 0x1_0000
  {
  }

  /** The checksum that goes on the wire is the complement of the one's complement sum of both
      addresses, the protocol number 6, the length and the segment, as in section 3.1 of RFC 793. */
  lemma TcpSumIs(src: seq<byte>, dst: seq<byte>, data: seq<byte>)
    requires |src| == 4 && |dst| == 4 && |data| <= 0xFFF3
    ensures TcpSum(src, dst, data) < 0x1_0000
    ensures Swap(TcpSum(src, dst, data))
         == 0xFFFF - OnesAdd(Word(src, 0), OnesAdd(Word(src, 2), OnesAdd(Word(dst, 0), OnesAdd(Word(dst, 2),
                       OnesAdd(6, OnesAdd(|data|, RfcSum(data)))))))
  {
    hide RfcSum, OnesAdd, IpSum, Swap, Word, PseudoHeader;
    var b := PseudoHeader(src, dst, |data|) + data;
    assert TcpCovered(src, dst, data) == b;
    PseudoWords(src, dst, |data|, data);
    RfcPeel(b, 0);
    RfcPeel(b, 2);
    RfcPeel(b, 4);
    RfcPeel(b, 6);
    RfcPeel(b, 8);
    RfcPeel(b, 10);
    SumRange(b);
    ByteOrderIndependent(b);
  }

  /** A segment whose checksum field at byte 16 was filled in verifies at the receiver, through
      the same pseudo-header, for every length whose sum with 12 fits 16 bits. */
  lemma TcpVerifies(src: seq<byte>, dst: seq<byte>, data: seq<byte>)
    requires |src| == 4 && |dst| == 4 && 18 <= |data| <= 0xFFF3 && data[16] == 0 && data[17] == 0
    ensures TcpSum(src, dst, data) < 0x1_0000
    ensures TcpSum(src, dst, Put16(data, 16, TcpSum(src, dst, data))) == 0
  {
    var v := TcpSum(src, dst, data);
    var whole := PseudoHeader(src, dst, |data|) + data;
    assert TcpCovered(src, dst, data) == whole;
    assert TcpCovered(src, dst, Put16(data, 16, v)) == Put16(whole, 28, v);
    VerifiesIff(whole, 28, v);
  }

  lemma {:induction false} ZeroPrefix(b: seq<byte>, k: nat)
    requires k % 2 == 0 && k <= |b| && forall i | 0 <= i < k :: b[i] == 0
    ensures LeSum(b) == LeSum(b[k..])
    decreases k
  {
    if k == 0 {
      assert b[0..] == b;
    } else {
      ZeroPrefix(b[2..], k - 2);
      assert b[2..][k - 2..] == b[k..];
    }
  }

  lemma TcpTooLong(data: seq<byte>)
    requires 0xFFF3 < |data| < 0x1_0000
    ensures TcpSum([0, 0, 0, 0], [0, 0, 0, 0], data) != 0
  {
    var b := TcpCovered([0, 0, 0, 0], [0, 0, 0, 0], data);
    assert |b| == |data| - 0xFFF4 <= 11;
    assert forall i | 0 <= i < |b| && i < 9 :: b[i] == 0;
    assert 9 < |b| ==> b[9] == 6;
    if |b| <= 8 {
      SwappedSums(b);
    } else {
      ZeroPrefix(b, 8);
      assert LeSum(b[8..]) < 0xFFFF by { if |b| == 11 { assert b[8..][2..] == [b[10]]; } }
    }
  }

  /** Past a length of 65523 bytes only the head of the pseudo-header is summed, and verification
      of an otherwise correct segment fails for some addresses. */
  lemma TcpLengthLimit(len: nat)
    requires 18 <= len < 0x1_0000
    ensures (forall src: seq<byte>, dst: seq<byte>, data: seq<byte> |
               |src| == 4 && |dst| == 4 && |data| == len && data[16] == 0 && data[17] == 0 ::
               TcpSum(src, dst, Put16(data, 16, TcpSum(src, dst, data))) == 0)
        <==> len <= 0xFFF3
  {
    if len <= 0xFFF3 {
      forall src: seq<byte>, dst: seq<byte>, data: seq<byte> |
        |src| == 4 && |dst| == 4 && |data| == len && data[16] == 0 && data[17] == 0
        ensures TcpSum(src, dst, Put16(data, 16, TcpSum(src, dst, data))) == 0
      {
        TcpVerifies(src, dst, data);
      }
    } else {
      var zero: seq<byte> := [0, 0, 0, 0];
      var data: seq<byte> := seq(len, _ => 0);
      var data' := Put16(data, 16, TcpSum(zero, zero, data));
      TcpTooLong(data');
      assert TcpSum(zero, zero, Put16(data, 16, TcpSum(zero, zero, data))) != 0;
    }
  }

  // -------------------------------------------------- filling in the fields

  /** Zero the checksum field of buf[off..off + len], sum, store the result in native order. */
  method FillIp(buf: array<byte>, off: nat, len: nat, k: nat)
    requires len < 0x1_0000 && off + len <= buf.Length && k % 2 == 0 && k + 2 <= len
    modifies buf
    ensures IpSum(buf[off..off + len]) == 0
    ensures forall i | 0 <= i < buf.Length && i != off + k && i != off + k + 1 :: buf[i] == old(buf[i])
  {
    buf[off + k], buf[off + k + 1] := 0, 0;
    ghost var b := buf[off..off + len];
    var c := IpChecksum(buf, off, len);
    VerifiesIff(b, k, c);
    buf[off + k], buf[off + k + 1] := c % 256, c / 256;
    assert buf[off..off + len] == Put16(b, k, c);
  }

  /** What becomes of a frame of at most 1500 bytes: it is refused, it is sent, or the copy into
      it runs past its end. */
  datatype Sending = Refused | Sent | Overrun

  /** The sum of the lengths is kept in 16 bits and compared with 1500. */
  function Sizing(header: nat, len: nat): (r: Sending) {
    if 1500 < (header + len) % 0x1_0000 then Refused else if 1500 < header + len then Overrun else Sent
  }

  /** For both headers: a frame is sent exactly when all of it fits, and the size test keeps
      every copy inside exactly when the sum of the lengths does not wrap. */
  lemma SizingIff(header: nat, len: nat)
    requires header <= 1500 && len < 0x1_0000
    ensures Sizing(header, len) == Sent <==> header + len <= 1500
    ensures Sizing(header, len) != Overrun <==> header + len < 0x1_0000
  {
  }

  /** The shortest payloads that get past the tests of net_send_ip and tcp_send_seg. */
  lemma OverrunExamples()
    ensures Sizing(34, 65501) == Refused && Sizing(34, 65502) == Overrun
    ensures Sizing(20, 65515) == Refused && Sizing(20, 65516) == Overrun
  {
  }

  /** A segment that tcp_send_seg builds is refused by net_send_ip exactly for these lengths. */
  lemma DroppedIff(len: nat)
    requires len < 0x1_0000
    ensures Sizing(20, len) == Sent && Sizing(34, 20 + len) != Sent <==> 1447 <= len <= 1480
    ensures Sizing(20, len) == Sent ==> Sizing(34, 20 + len) != Overrun
  {
    SizingIff(20, len);
    if len <= 1480 { SizingIff(34, 20 + len); }
  }

  lemma SameSlice(m: seq<byte>, m': seq<byte>, a: nat, b: nat)
    requires a <= b <= |m| == |m'| && forall k | a <= k < b :: m[k] == m'[k]
    ensures m[a..b] == m'[a..b]
  {
  }

  method PlaceAddresses(frame: array<byte>, ourIp: seq<byte>, dst: seq<byte>)
    requires |ourIp| == 4 && |dst| == 4 && 34 <= frame.Length
    modifies frame
    ensures frame[26..30] == ourIp && frame[30..34] == dst
    ensures forall k | 0 <= k < frame.Length && !(26 <= k < 34) :: frame[k] == old(frame[k])
  {
    CopyInto(frame, 26, ourIp);
    ghost var before := frame[..];
    CopyInto(frame, 30, dst);
    SameSlice(before, frame[..], 26, 30);
  }

  /** The frame net_send_ip hands to the card, if a route is resolved: an IPv4 header that
      verifies, naming the length, the protocol and both addresses, and the payload. */
  method SendIp(ourIp: seq<byte>, dst: seq<byte>, proto: byte, payload: seq<byte>, routed: bool)
    returns (r: Sending, frame: array<byte>)
    requires |ourIp| == 4 && |dst| == 4 && |payload| < 0x1_0000
    ensures r == Sent <==> routed && |payload| <= 1466
    ensures r == Overrun <==> routed && 65502 <= |payload|
    ensures frame.Length == 1500 && fresh(frame)
    ensures r == Sent ==>
              && IpSum(frame[14..34]) == 0
              && frame[14] == 0x45 && frame[15] == 0 && frame[22] == 64 && frame[23] == proto
              && (forall k | 18 <= k < 22 :: frame[k] == 0)
              && 256 * (frame[16] as int) + frame[17] as int == 20 + |payload|
              && frame[26..30] == ourIp && frame[30..34] == dst
              && frame[34..34 + |payload|] == payload
  {
    frame := new byte[1500];
    if !routed { return Refused, frame; }
    SizingIff(34, |payload|);
    var total := (14 + 20 + |payload|) % 0x1_0000;
    if 1500 < total { return Refused, frame; }
    if 1500 < 34 + |payload| { return Overrun, frame; }  // at the copy of the payload
    for i := 0 to 20
      invariant forall k | 14 <= k < 14 + i :: frame[k] == 0
    {
      frame[14 + i] := 0;
    }
    frame[14] := 0x45;
    frame[16], frame[17] := (20 + |payload|) / 256, (20 + |payload|) % 256;
    frame[22], frame[23] := 64, proto;
    PlaceAddresses(frame, ourIp, dst);
    ghost var m0 := frame[..];
    CopyInto(frame, 34, payload);
    ghost var m1 := frame[..];
    FillIp(frame, 14, 20, 10);
    ghost var m2 := frame[..];
    SameSlice(m0, m2, 26, 30);
    SameSlice(m0, m2, 30, 34);
    SameSlice(m1, m2, 34, 34 + |payload|);
    r := Sent;
  }

  /** A 32-bit value in network order. */
  function Be32(v: nat): (r: seq<byte>)
    requires v < WORD
    ensures |r| == 4
  {
    [v / 0x100_0000, v / 0x1_0000 % 0x100, v / 0x100 % 0x100, v % 0x100]
  }

  function Be16(v: nat): (r: seq<byte>)
    requires v < 0x1_0000
    ensures |r| == 2
  {
    [v / 0x100, v % 0x100]
  }

  datatype Header = Header(sport: nat, dport: nat, seqNum: nat, ackNum: nat, flags: byte)

  predicate ValidHeader(h: Header) {
    h.sport < 0x1_0000 && h.dport < 0x1_0000 && h.seqNum < WORD && h.ackNum < WORD
  }

  /** The 20 bytes of a TCP header with an empty checksum. */
  function HeaderBytes(h: Header): (r: seq<byte>)
    requires ValidHeader(h)
    ensures |r| == 20 && r[16] == 0 && r[17] == 0
  {
    Be16(h.sport) + Be16(h.dport) + Be32(h.seqNum) + Be32(h.ackNum) + [0x50, h.flags, 0x10, 0x00, 0, 0, 0, 0]
  }

  lemma Split32(v: nat)
    requires v < WORD
    ensures 0x1_0000 * (256 * (v / 0x100_0000) + v / 0x1_0000 % 0x100) + 256 * (v / 0x100 % 0x100) + v % 0x100 == v
  {
    Bytes32(v);
  }

  /** Where a receiver finds the fields: big-endian, a header of five words, a window of 4096. */
  lemma HeaderFields(h: Header)
    requires ValidHeader(h)
    ensures var b := HeaderBytes(h);
            && Word(b, 0) == h.sport && Word(b, 2) == h.dport
            && 0x1_0000 * Word(b, 4) + Word(b, 6) == h.seqNum && 0x1_0000 * Word(b, 8) + Word(b, 10) == h.ackNum
            && b[12] as int / 16 == 5 && b[12] as int % 16 == 0 && b[13] == h.flags && Word(b, 14) == 4096
            && Word(b, 16) == 0 && Word(b, 18) == 0
  {
    Split32(h.seqNum);
    Split32(h.ackNum);
  }

  method WriteHeader(buf: array<byte>, h: Header)
    requires ValidHeader(h) && 20 <= buf.Length
    modifies buf
    ensures buf[..20] == HeaderBytes(h)
  {
    for i := 0 to 20
      invariant forall k | 0 <= k < i :: buf[k] == 0
    {
      buf[i] := 0;
    }
    CopyInto(buf, 0, Be16(h.sport) + Be16(h.dport) + Be32(h.seqNum) + Be32(h.ackNum));
    assert buf[..16] == buf[0..16];
    buf[12], buf[13], buf[14], buf[15] := 0x50, h.flags, 0x10, 0x00;
    assert buf[..12] == buf[0..16][..12];
  }

  /** The sequence number after a segment: SYN and FIN count as one byte each. */
  function NextSeq(h: Header, len: nat): (r: nat)
    ensures r < WORD
  {
    (h.seqNum + h.flags / 2 % 2 + h.flags % 2 + len) % 0x1_0000_0000
  }

  /** A SYN and a FIN take one number each, other flags none, and data one a byte. */
  lemma SequenceSteps(h: Header, len: nat)
    requires h.seqNum + len + 2 < WORD
    ensures NextSeq(h.(flags := 0x02), 0) == h.seqNum + 1 && NextSeq(h.(flags := 0x12), 0) == h.seqNum + 1
    ensures NextSeq(h.(flags := 0x11), len) == h.seqNum + 1 + len
    ensures NextSeq(h.(flags := 0x03), len) == h.seqNum + 2 + len
    ensures NextSeq(h.(flags := 0x10), len) == NextSeq(h.(flags := 0x18), len) == h.seqNum + len
    ensures NextSeq(h.(flags := 0x04), len) == h.seqNum + len
  {
  }

  /** The segment tcp_send_seg builds: header and data are in place and, unless memory runs
      out, the receiver's sum through the pseudo-header is 0. */
  method BuildSegment(ourIp: seq<byte>, dst: seq<byte>, h: Header, data: seq<byte>, memory: bool)
    returns (r: Sending, seg: seq<byte>)
    requires |ourIp| == 4 && |dst| == 4 && ValidHeader(h) && |data| < 0x1_0000
    ensures r == Sent <==> |data| <= 1480
    ensures r == Overrun <==> 65516 <= |data|
    ensures r == Sent ==>
              && |seg| == 20 + |data|
              && (memory ==> TcpSum(ourIp, dst, seg) == 0)
              && seg[..16] + [0, 0] + seg[18..] == HeaderBytes(h) + data
  {
    SizingIff(20, |data|);
    var len := (20 + |data|) % 0x1_0000;
    if 1500 < len { return Refused, []; }
    if 1500 < 20 + |data| { return Overrun, []; }  // at the copy of the data
    var buf := new byte[1500];
    WriteHeader(buf, h);
    ghost var head := buf[..20];
    CopyInto(buf, 20, data);
    ghost var b := buf[..len];
    assert b == head + data by { assert b[..20] == head && b[20..] == data; }
    hide HeaderBytes, TcpSum;
    var c := TcpChecksum(ourIp, dst, buf[..len], memory);
    TcpVerifies(ourIp, dst, b);
    buf[16], buf[17] := c % 256, c / 256;
    seg := buf[..len];
    assert seg == Put16(b, 16, c);
    assert seg[..16] + [0, 0] + seg[18..] == b;
    r := Sent;
  }

  /** The frame is on its way to dst with this segment in it, and a receiver finds both sums 0. */
  ghost predicate Carries(frame: seq<byte>, ourIp: seq<byte>, dst: seq<byte>, segment: seq<byte>, summed: bool)
    requires |frame| == 1500 && |ourIp| == 4 && |dst| == 4 && 20 <= |segment| < 0x1_0000
  {
    var end := 34 + |segment|;
    && end <= 1500
    && IpSum(frame[14..34]) == 0
    && frame[23] == 6 && frame[26..30] == ourIp && frame[30..34] == dst
    && 256 * (frame[16] as int) + frame[17] as int == 20 + |segment|
    && frame[34..50] + [0, 0] + frame[52..end] == segment
    && (summed ==> TcpSum(ourIp, dst, frame[34..end]) == 0)
  }

  lemma FrameCarries(frame: seq<byte>, ourIp: seq<byte>, dst: seq<byte>, segment: seq<byte>, plain: seq<byte>,
    summed: bool)
    requires |frame| == 1500 && |ourIp| == 4 && |dst| == 4 && 20 <= |segment| == |plain| && 34 + |segment| <= 1500
    requires IpSum(frame[14..34]) == 0 && frame[23] == 6 && frame[26..30] == ourIp && frame[30..34] == dst
    requires 256 * (frame[16] as int) + frame[17] as int == 20 + |segment|
    requires frame[34..34 + |segment|] == segment && segment[..16] + [0, 0] + segment[18..] == plain
    requires summed ==> TcpSum(ourIp, dst, segment) == 0
    ensures Carries(frame, ourIp, dst, plain, summed)
  {
    hide TcpSum, IpSum;
    assert frame[34..50] == segment[..16] && frame[52..34 + |segment|] == segment[18..];
  }

  /** tcp_send_seg: the card gets a frame if and only if there is a route and the data is at most
      1446 bytes.  The sequence number advances for data up to 1480 bytes, sent or not. */
  method SendSegment(ourIp: seq<byte>, dst: seq<byte>, h: Header, data: seq<byte>, memory: bool, routed: bool)
    returns (r: Sending, seqNum: nat, frame: array<byte>)
    requires |ourIp| == 4 && |dst| == 4 && ValidHeader(h) && |data| < 0x1_0000
    ensures r == Sent <==> routed && |data| <= 1446
    ensures r == Overrun <==> 65516 <= |data|
    ensures r != Overrun ==> seqNum == if |data| <= 1480 then NextSeq(h, |data|) else h.seqNum
    ensures r == Sent ==> frame.Length == 1500 && Carries(frame[..], ourIp, dst, HeaderBytes(h) + data, memory)
  {
    hide HeaderBytes, TcpSum, IpSum;
    var built, segment := BuildSegment(ourIp, dst, h, data, memory);
    if built != Sent { return built, h.seqNum, new byte[0]; }
    r, frame := SendIp(ourIp, dst, 6, segment, routed);
    if r == Sent { FrameCarries(frame[..], ourIp, dst, segment, HeaderBytes(h) + data, memory); }
    seqNum := NextSeq(h, |data|);
  }

  /** tcp_send_data: an established connection answers the length, whatever became of the data. */
  method SendData(ourIp: seq<byte>, dst: seq<byte>, h: Header, data: seq<byte>, memory: bool, routed: bool,
    established: bool)
    returns (answer: int, r: Sending, seqNum: nat)
    requires |ourIp| == 4 && |dst| == 4 && ValidHeader(h) && h.flags == 0x18 && |data| < 0x1_0000
    ensures answer == if established then |data| else -1
    ensures r == Sent <==> established && routed && |data| <= 1446
    ensures established && 1447 <= |data| <= 65515 ==> answer == |data| && r == Refused
    ensures established && r != Overrun ==>
              seqNum == if |data| <= 1480 then (h.seqNum + |data|) % 0x1_0000_0000 else h.seqNum
  {
    if !established { return -1, Refused, h.seqNum; }
    var frame;
    r, seqNum, frame := SendSegment(ourIp, dst, h, data, memory, routed);
    answer := |data|;
  }
}
