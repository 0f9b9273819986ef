/**
 The Internet checksum with a single fold (network/ipv4.c:6-16; network/tcp.c:15-37), against the
 one's-complement checksum of section 1 of RFC 1071.
 */
module Checksum {

  import opened Basics

  type Word16 = x: int | 0 <= x < 0x10000

  // ---- the reference -------------------------------------------------------------------------------

  /** One's-complement addition brings every carry back into the low 16 bits. */
  function OnesSum(sum: nat): (r: Word16) {
    if sum < 0x10000 then sum else OnesSum(sum % 0x10000 + sum / 0x10000)
  }

  function Reference(sum: nat): Word16 {
    0xFFFF - OnesSum(sum)
  }

  function Total(words: seq<Word16>): nat {
    if words == [] then 0 else words[0] + Total(words[1..])
  }

  /** The sum of the 16-bit words of a byte string, a lone last byte being padded with zero. */
  function BytesTotal(s: seq<Byte>): nat
    decreases |s|
  {
    if s == [] then 0 else if |s| == 1 then Pair(s[0], 0) else Pair(s[0], s[1]) + BytesTotal(s[2..])
  }

  function Pair(a: int, b: int): int {
    a + b * 0x100
  }

  // ---- the single fold -----------------------------------------------------------------------------

  /** Both halves of the 32-bit sum, added once. */
  function Halves(sum: nat): nat {
    sum % 0x10000 + sum / 0x10000
  }

  /** The complement of the single fold, cut to 16 bits. */
  function Folded(sum: nat): Word16 {
    0xFFFF - Halves(sum) % 0x10000
  }

  lemma AddedMultiple(a: nat, q: nat)
    ensures (a + 0xFFFF * q) % 0xFFFF == a % 0xFFFF
  {
  }

  /** The fold keeps the sum modulo 0xFFFF. */
  lemma {:induction false} OnesSumModulo(sum: nat)
    ensures OnesSum(sum) % 0xFFFF == sum % 0xFFFF
    ensures sum > 0 ==> OnesSum(sum) > 0
    decreases sum
  {
    if sum >= 0x10000 {
      var h := Halves(sum);
      OnesSumModulo(h);
      AddedMultiple(h, sum / 0x10000);
    }
  }

  /** One fold is enough exactly when the two halves add up without a carry; otherwise the checksum is
      too large by one. */
  lemma FoldedExactIff(sum: nat)
    requires sum < 0x1_0000_0000
    ensures Folded(sum) == Reference(sum) <==> Halves(sum) <= 0xFFFF
    ensures Halves(sum) > 0xFFFF ==> Folded(sum) == Reference(sum) + 1
  {
    if sum < 0x10000 {
      assert Halves(sum) == sum;
    } else {
      var h := Halves(sum);
      assert OnesSum(sum) == OnesSum(h);
      if h > 0xFFFF {
        assert h < 0x20000 && Halves(h) == h % 0x10000 + 1;
      }
    }
  }

  /** A packet completed with the checksum adds up to 0 modulo 0xFFFF, and so is accepted by a receiver,
      who expects all ones, exactly when the halves add up without a carry. */
  lemma AcceptedIff(sum: nat)
    requires 0 < sum < 0x1_0000_0000
    ensures (sum + Folded(sum)) % 0xFFFF == (if Halves(sum) <= 0xFFFF then 0 else 1)
    ensures OnesSum(sum + Folded(sum)) == 0xFFFF <==> Halves(sum) <= 0xFFFF
  {
    var h, c := Halves(sum), Folded(sum);
    assert sum == h + 0xFFFF * (sum / 0x10000);
    if h <= 0xFFFF {
      assert sum + c == 0xFFFF * (sum / 0x10000 + 1);
    } else {
      assert h % 0x10000 == h - 0x10000;
      assert sum + c == 1 + 0xFFFF * (sum / 0x10000 + 2);
    }
    OnesSumModulo(sum + c);
  }

  // ---- the code ------------------------------------------------------------------------------------

  /** ipv4_checksum over the ten words of a header. */
  method Ipv4Checksum(h: seq<Word16>) returns (c: Word16)
    requires |h| == 10
    ensures c == Folded(Total(h)) && Total(h) <= 10 * 0xFFFF
  {
    var tmp := 0;
    assert h[0..] == h;
    for i := 0 to 10
      invariant tmp + Total(h[i..]) == Total(h) && 0 <= tmp <= i * 0xFFFF
    {
      assert h[i..][1..] == h[i + 1..];
      tmp := tmp + h[i];
    }
    c := Complement(tmp);
  }

  /** ~(u16ptr[0] + u16ptr[1]) as a 16-bit value. */
  method Complement(tmp: nat) returns (c: Word16)
    requires tmp < 0x1_0000_0000
    ensures c == Folded(tmp)
  {
    var lo, hi := tmp % 0x10000, tmp / 0x10000;
    c := 0xFFFF - (lo + hi) % 0x10000;
  }

  /** htons. */
  function Swap(x: Word16): Word16 {
    x % 256 * 256 + x / 256
  }

  /** The pseudo header of section 3.1 of RFC 9293: both addresses, a zero, the protocol and the length, in
      network order. */
  function PseudoHeader(src: seq<Byte>, dst: seq<Byte>, length: Word16): seq<Byte> {
    src + dst + [0, 6, length / 256, length % 256]
  }

  /** tcp_checksum over header and data, of even or odd length, is the single fold of the pseudo header and the
      segment; the 32-bit sum never overflows. */
  method TcpChecksum(src: seq<Byte>, dst: seq<Byte>, segment: seq<Byte>) returns (c: Word16)
    requires |src| == |dst| == 4 && 20 <= |segment| < 0x10000
    ensures var sum := BytesTotal(PseudoHeader(src, dst, |segment|) + segment);
            sum < 0x1_0000_0000 && c == Folded(sum)
  {
    var tmp: int := 0;
    tmp := tmp + (Pair(src[0], src[1]) + Pair(src[2], src[3]));
    tmp := tmp + (Pair(dst[0], dst[1]) + Pair(dst[2], dst[3]));
    tmp := tmp + Swap(6);
    tmp := tmp + Swap(|segment|);
    PseudoTotal(src, dst, |segment|);
    BytesTotalJoined(PseudoHeader(src, dst, |segment|), segment);
    c := SumSegment(tmp, segment);
  }

  /** The loop over the segment. */
  method SumSegment(pseudo: nat, segment: seq<Byte>) returns (c: Word16)
    requires pseudo <= 6 * 0xFFFF && |segment| < 0x10000
    ensures pseudo + BytesTotal(segment) < 0x1_0000_0000 && c == Folded(pseudo + BytesTotal(segment))
  {
    var tmp: int, tcpsize := pseudo, |segment|;
    assert segment[0..] == segment;
    for i := 0 to tcpsize / 2
      invariant tmp + BytesTotal(segment[2 * i..]) == pseudo + BytesTotal(segment) && tmp <= pseudo + i * 0xFFFF
    {
      assert segment[2 * i..][2..] == segment[2 * (i + 1)..];
      tmp := tmp + Pair(segment[2 * i], segment[2 * i + 1]);
    }
    if tcpsize % 2 == 1 {
      assert segment[2 * (tcpsize / 2)..] == [segment[tcpsize - 1]];
      tmp := tmp + segment[tcpsize - 1];
    }
    c := Complement(tmp);
  }

  /** Byte strings of even length add up with what follows them. */
  lemma {:induction false} BytesTotalJoined(s: seq<Byte>, t: seq<Byte>)
    requires |s| % 2 == 0
    ensures BytesTotal(s + t) == BytesTotal(s) + BytesTotal(t)
    decreases |s|
  {
    if s == [] {
      assert s + t == t;
    } else {
      assert (s + t)[2..] == s[2..] + t;
      BytesTotalJoined(s[2..], t);
    }
  }

  /** A lone last byte counts as if a zero followed it. */
  lemma {:induction false} BytesTotalPadded(s: seq<Byte>)
    requires |s| % 2 == 1
    ensures BytesTotal(s + [0]) == BytesTotal(s)
    decreases |s|
  {
    if |s| > 1 {
      assert (s + [0])[2..] == s[2..] + [0];
      BytesTotalPadded(s[2..]);
    }
  }

  lemma TwoBytes(a: Byte, b: Byte)
    ensures BytesTotal([a, b]) == Pair(a, b)
  {
    assert [a, b][2..] == [];
  }

  lemma FourBytes(s: seq<Byte>)
    requires |s| == 4
    ensures BytesTotal(s) == Pair(s[0], s[1]) + Pair(s[2], s[3])
  {
    TwoBytes(s[2], s[3]);
    assert s[2..] == [s[2], s[3]];
  }

  lemma ProtocolAndLength(length: Word16)
    ensures BytesTotal([0, 6, length / 256, length % 256]) == Swap(6) + Swap(length)
  {
    FourBytes([0, 6, length / 256, length % 256]);
  }

  lemma PseudoTotal(src: seq<Byte>, dst: seq<Byte>, length: Word16)
    requires |src| == |dst| == 4
    ensures BytesTotal(PseudoHeader(src, dst, length))
            == Pair(src[0], src[1]) + Pair(src[2], src[3]) + (Pair(dst[0], dst[1]) + Pair(dst[2], dst[3]))
               + Swap(6) + Swap(length)
    ensures 0 < BytesTotal(PseudoHeader(src, dst, length)) <= 6 * 0xFFFF
  {
    BytesTotalJoined(src + dst, [0, 6, length / 256, length % 256]);
    BytesTotalJoined(src, dst);
    FourBytes(src);
    FourBytes(dst);
    ProtocolAndLength(length);
  }

  lemma {:induction false} TotalUpdated(words: seq<Word16>, i: nat, c: Word16)
    requires i < |words|
    ensures Total(words[i := c]) == Total(words) - words[i] + c
    decreases i
  {
    var w := words[i := c];
    if i == 0 {
      assert w[1..] == words[1..];
    } else {
      assert w[1..] == words[1..][i - 1 := c];
      TotalUpdated(words[1..], i - 1, c);
    }
  }

  lemma {:induction false} TotalBound(words: seq<Word16>)
    ensures Total(words) <= 0xFFFF * |words|
  {
    if words != [] {
      TotalBound(words[1..]);
    }
  }

  lemma {:induction false} BytesTotalBound(s: seq<Byte>)
    ensures 2 * BytesTotal(s) <= 0xFFFF * (|s| + 1)
    decreases |s|
  {
    if |s| >= 2 {
      BytesTotalBound(s[2..]);
    }
  }

  /** An IPv4 header whose checksum field is filled in with the result is accepted exactly when the halves
      of the sum of its other words add up without a carry. */
  lemma Ipv4AcceptedIff(h: seq<Word16>)
    requires |h| == 10 && h[5] == 0 && Total(h) > 0
    ensures OnesSum(Total(h[5 := Folded(Total(h))])) == 0xFFFF <==> Halves(Total(h)) <= 0xFFFF
  {
    TotalBound(h);
    TotalUpdated(h, 5, Folded(Total(h)));
    AcceptedIff(Total(h));
  }

  /** The i-th word of a byte string written anew. */
  function WithWord(s: seq<Byte>, i: nat, c: Word16): (r: seq<Byte>)
    requires 2 * i + 1 < |s|
  {
    s[2 * i := c % 0x100][2 * i + 1 := c / 0x100]
  }

  lemma {:induction false} BytesTotalUpdated(s: seq<Byte>, i: nat, c: Word16)
    requires 2 * i + 1 < |s|
    ensures BytesTotal(WithWord(s, i, c)) == BytesTotal(s) - Pair(s[2 * i], s[2 * i + 1]) + c
    decreases i
  {
    var t := WithWord(s, i, c);
    if i == 0 {
      assert t[2..] == s[2..];
    } else {
      assert t[2..] == WithWord(s[2..], i - 1, c);
      BytesTotalUpdated(s[2..], i - 1, c);
    }
  }

  /** A TCP segment, of even or odd length, whose checksum field (bytes 16 and 17) is filled in with the
      result is accepted exactly when the halves of the sum before add up without a carry. */
  lemma TcpAcceptedIff(src: seq<Byte>, dst: seq<Byte>, segment: seq<Byte>)
    requires |src| == |dst| == 4 && 20 <= |segment| < 0x10000 && segment[16] == 0 && segment[17] == 0
    ensures var pseudo := PseudoHeader(src, dst, |segment|);
            var sum := BytesTotal(pseudo + segment);
            OnesSum(BytesTotal(pseudo + WithWord(segment, 8, Folded(sum)))) == 0xFFFF <==> Halves(sum) <= 0xFFFF
  {
    PseudoTotal(src, dst, |segment|);
    FilledIn(PseudoHeader(src, dst, |segment|), segment);
  }

  lemma FilledIn(pseudo: seq<Byte>, segment: seq<Byte>)
    requires |pseudo| % 2 == 0 && 0 < BytesTotal(pseudo) <= 6 * 0xFFFF
    requires 20 <= |segment| < 0x10000 && segment[16] == 0 && segment[17] == 0
    ensures var sum := BytesTotal(pseudo + segment);
            OnesSum(BytesTotal(pseudo + WithWord(segment, 8, Folded(sum)))) == 0xFFFF <==> Halves(sum) <= 0xFFFF
  {
    var sum := BytesTotal(pseudo + segment);
    BytesTotalBound(segment);
    BytesTotalJoined(pseudo, segment);
    BytesTotalJoined(pseudo, WithWord(segment, 8, Folded(sum)));
    BytesTotalUpdated(segment, 8, Folded(sum));
    AcceptedIff(sum);
  }
}
