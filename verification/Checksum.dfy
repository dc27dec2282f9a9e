/** The Internet checksum of net.cpp and its uses in IPv4 and ICMP, against the one's
    complement sum of section 1 of RFC 1071. */
module Checksum {
  import opened Bytes

  /** A byte as the high half of a word. */
  function Padded(b: nat): nat {
    256 * b
  }

  /** The i-th 16-bit word in network byte order. */
  function WordAt(data: seq<Byte>, i: nat): nat
    requires 2 * i + 1 < |data|
  {
    Padded(data[2 * i]) + data[2 * i + 1]
  }

  function WordSum(data: seq<Byte>, n: nat): nat
    requires 2 * n <= |data|
  {
    if n == 0 then 0 else WordSum(data, n - 1) + WordAt(data, n - 1)
  }

  /** The plain sum of all words; a last odd byte is padded with a zero byte. */
  function Total(data: seq<Byte>): nat {
    WordSum(data, |data| / 2) + if |data| % 2 == 1 then Padded(data[|data| - 1]) else 0
  }

  // ---------------------------------------------------------------------------
  // One's complement sums

  /** The representative of a sum modulo 65535: 0 for 0, else in 1..65535. */
  function Rep(s: nat): nat {
    if s == 0 then 0 else (s - 1) % 65535 + 1
  }

  lemma RepMeaning(s: nat)
    ensures Rep(s) == 0 <==> s == 0
    ensures Rep(s) <= 65535 && Rep(s) % 65535 == s % 65535
  {
  }

  lemma Mod65535(x: nat, q: int, r: nat)
    requires x == 65535 * q + r && r < 65535
    ensures x % 65535 == r
  {
  }

  lemma FoldStep(s: nat)
    ensures Rep(s % 65536 + s / 65536) == Rep(s)
  {
    hide Rep;
    var a, b := s % 65536, s / 65536;
    ShiftMod(a + b, b, s);
    SameRep(s, a + b);
  }

  /** Addition with end-around carry. */
  function OnesAdd(a: nat, b: nat): nat {
    if a + b <= 65535 then a + b else a + b - 65535
  }

  lemma OnesAddRep(s: nat, w: nat)
    requires w <= 65535
    ensures OnesAdd(Rep(s), w) == Rep(s + w)
  {
    if s > 0 {
      var q, r := (s - 1) / 65535, (s - 1) % 65535;
      if r + w < 65535 {
        Mod65535(s + w - 1, q, r + w);
      } else {
        Mod65535(s + w - 1, q + 1, r + w - 65535);
      }
    }
  }

  function RfcSum(data: seq<Byte>, n: nat): nat
    requires 2 * n <= |data|
  {
    if n == 0 then 0 else OnesAdd(RfcSum(data, n - 1), WordAt(data, n - 1))
  }

  /** The one's complement sum that section 1 of RFC 1071 defines. */
  function RfcTotal(data: seq<Byte>): nat {
    var s := RfcSum(data, |data| / 2);
    if |data| % 2 == 1 then OnesAdd(s, Padded(data[|data| - 1])) else s
  }

  lemma {:induction false} RfcSumIsRep(data: seq<Byte>, n: nat)
    requires 2 * n <= |data|
    ensures RfcSum(data, n) == Rep(WordSum(data, n))
  {
    if n > 0 {
      RfcSumIsRep(data, n - 1);
      OnesAddRep(WordSum(data, n - 1), WordAt(data, n - 1));
    }
  }

  /** Folding the plain sum once at the end gives the end-around-carry sum. */
  lemma RfcTotalIsRep(data: seq<Byte>)
    ensures RfcTotal(data) == Rep(Total(data))
  {
    RfcSumIsRep(data, |data| / 2);
    if |data| % 2 == 1 {
      OnesAddRep(WordSum(data, |data| / 2), Padded(data[|data| - 1]));
    }
  }

  // ---------------------------------------------------------------------------
  // ip_checksum

  function Checksum(data: seq<Byte>): (c: nat)
    ensures c <= 0xFFFF
  {
    RfcTotalIsRep(data);
    65535 - RfcTotal(data)
  }

  lemma {:induction false} WordSumBound(data: seq<Byte>, n: nat)
    requires 2 * n <= |data|
    ensures WordSum(data, n) <= 65535 * n
  {
    if n > 0 {
      WordSumBound(data, n - 1);
    }
  }

  /** The fold loop. */
  method Fold(total: nat) returns (sum: nat)
    ensures sum == Rep(total)
  {
    sum := total;
    while sum / 65536 != 0
      invariant Rep(sum) == Rep(total)
      decreases sum
    {
      FoldStep(sum);
      sum := sum % 65536 + sum / 65536;
    }
  }

  /** The sum is kept in 32 bits. */
  const SUM_RANGE: nat := 0x1_0000_0000

  /** Dropping carries beyond 32 bits does no harm to this sum. */
  predicate HarmlessWrap(total: nat) {
    (total / SUM_RANGE) % 65535 == 0 && (total % SUM_RANGE == 0 ==> total == 0)
  }

  lemma WrapExactly(total: nat)
    ensures Rep(total % SUM_RANGE) == Rep(total) <==> HarmlessWrap(total)
  {
    var q, r := total / SUM_RANGE, total % SUM_RANGE;
    assert total == 65535 * (65537 * q) + (q + r);
    RepMeaning(total);
    RepMeaning(r);
    RepMeaning(q + r);
    SameRep(total, r);
    ShiftMod(q + r, 65537 * q, total);
    AddMod(q, r);
  }

  /** Sums with the same representative. */
  lemma SameRep(a: nat, b: nat)
    ensures Rep(a) == Rep(b) <==> a % 65535 == b % 65535 && (a == 0 <==> b == 0)
  {
    RepMeaning(a);
    RepMeaning(b);
    if a > 0 && b > 0 && a % 65535 == b % 65535 {
      RepOfMod(a);
      RepOfMod(b);
    }
  }

  lemma RepOfMod(s: nat)
    requires s > 0
    ensures Rep(s) == if s % 65535 == 0 then 65535 else s % 65535
  {
  }

  lemma ShiftMod(s: nat, k: nat, t: nat)
    requires t == 65535 * k + s
    ensures t % 65535 == s % 65535
  {
  }

  lemma AddMod(q: nat, r: nat)
    ensures (q + r) % 65535 == r % 65535 <==> q % 65535 == 0
  {
    var a, b := q % 65535, r % 65535;
    var k, l := q / 65535, r / 65535;
    assert q + r == 65535 * (k + l) + (a + b);
    if a + b < 65535 {
      Mod65535(q + r, k + l, a + b);
    } else {
      Mod65535(q + r, k + l + 1, a + b - 65535);
    }
  }

  lemma WrapAdd(a: nat, b: nat)
    ensures (a % SUM_RANGE + b) % SUM_RANGE == (a + b) % SUM_RANGE
  {
  }

  /** Data short enough for the sum never to wrap. */
  lemma ShortTotal(data: seq<Byte>)
    requires |data| < 0x2_0000
    ensures Total(data) < SUM_RANGE && HarmlessWrap(Total(data))
  {
    hide WordAt, Padded;
    WordSumBound(data, |data| / 2);
    if |data| % 2 == 1 {
      PaddedBound(data[|data| - 1]);
    }
  }

  /** ip_checksum, as the number it stores in network byte order. It is the complement of
      the sum of section 1 of RFC 1071 exactly when wrapping around 32 bits does no harm,
      as it never does for less than 128 KiB. */
  method IpChecksum(data: seq<Byte>) returns (c: nat)
    ensures c == 65535 - Rep(Total(data) % SUM_RANGE)
    ensures c == Checksum(data) <==> HarmlessWrap(Total(data))
    ensures |data| < 0x2_0000 ==> c == Checksum(data)
  {
    hide Rep, RfcSum, OnesAdd, WordAt, Padded, HarmlessWrap;
    RfcTotalIsRep(data);
    WrapExactly(Total(data));
    RepMeaning(Total(data) % SUM_RANGE);
    if |data| < 0x2_0000 {
      ShortTotal(data);
    }
    var sum: nat, i := 0, 0;
    while i < |data| / 2
      invariant 0 <= i <= |data| / 2 && sum == WordSum(data, i) % SUM_RANGE
    {
      WrapAdd(WordSum(data, i), WordAt(data, i));
      sum := (sum + WordAt(data, i)) % SUM_RANGE;
      i := i + 1;
    }
    if |data| % 2 == 1 {
      WrapAdd(WordSum(data, i), Padded(data[|data| - 1]));
      sum := (sum + Padded(data[|data| - 1])) % SUM_RANGE;
    }
    sum := Fold(sum);
    c := 65535 - sum;
  }

  lemma PaddedBound(b: Byte)
    ensures Padded(b) <= 65280
  {
  }

  // ---------------------------------------------------------------------------
  // Storing and checking

  /** The data with a 16-bit field in network byte order at byte 2k. */
  function WithField(data: seq<Byte>, k: nat, v: nat): (r: seq<Byte>)
    requires 2 * k + 1 < |data| && v <= 0xFFFF
    ensures |r| == |data| && WordAt(r, k) == v
    ensures forall j :: 0 <= j < |data| && j != 2 * k && j != 2 * k + 1 ==> r[j] == data[j]
  {
    data[2 * k := v / 256][2 * k + 1 := v % 256]
  }

  lemma {:induction false} WithFieldSum(data: seq<Byte>, k: nat, v: nat, n: nat)
    requires 2 * k + 1 < |data| && v <= 0xFFFF && 2 * n <= |data|
    ensures WordSum(WithField(data, k, v), n) == WordSum(data, n) + if k < n then v - WordAt(data, k) else 0
  {
    hide WithField;
    if n > 0 {
      WithFieldSum(data, k, v, n - 1);
    }
  }

  lemma WithFieldTotal(data: seq<Byte>, k: nat, v: nat)
    requires 2 * k + 1 < |data| && v <= 0xFFFF
    ensures Total(WithField(data, k, v)) == Total(data) - WordAt(data, k) + v
  {
    hide WithField;
    WithFieldSum(data, k, v, |data| / 2);
  }

  /** Storing the checksum in a zeroed field makes the whole range check to 0. */
  lemma StoredChecks(data: seq<Byte>, k: nat)
    requires 2 * k + 1 < |data| && WordAt(data, k) == 0
    ensures Checksum(WithField(data, k, Checksum(data))) == 0
  {
    RfcTotalIsRep(data);
    RepMeaning(Total(data));
    var c := Checksum(data);
    WithFieldTotal(data, k, c);
    RfcTotalIsRep(WithField(data, k, c));
    RepComplement(Total(data));
  }

  lemma RepComplement(s: nat)
    ensures Rep(s) <= 65535 && Rep(s + (65535 - Rep(s))) == 65535
  {
    if s > 0 {
      var q, r := (s - 1) / 65535, (s - 1) % 65535;
      assert s - 1 == 65535 * q + r;
      assert s + (65535 - Rep(s)) - 1 == 65535 * q + 65534;
    }
  }

  // ---------------------------------------------------------------------------
  // IPv4 headers

  const HEADER_LEN: nat := 20

  /** The checksum field is the sixth word of the header. */
  const CHECKSUM_WORD: nat := 5

  /** The header length field, in bytes. */
  function StatedLength(header: seq<Byte>): nat
    requires |header| == HEADER_LEN
  {
    header[0] % 16 * 4
  }

  /** The bytes the check reads: the 20-byte copy of the header, as many of them as the
      header says, and for a longer header what follows the copy in memory. */
  function Checked(header: seq<Byte>, after: seq<Byte>): (data: seq<Byte>)
    requires |header| == HEADER_LEN && |after| >= 40
    ensures |data| == StatedLength(header)
    ensures StatedLength(header) == HEADER_LEN ==> data == header
  {
    (header + after)[..StatedLength(header)]
  }

  /** The header check of ipv4_handle_packet: the checksum of the header with its field
      zeroed equals the received field, and the header is not too short. */
  predicate Accepts(header: seq<Byte>, after: seq<Byte>)
    requires |header| == HEADER_LEN && |after| >= 40
  {
    && Checksum(Checked(WithField(header, CHECKSUM_WORD, 0), after)) == WordAt(header, CHECKSUM_WORD)
    && StatedLength(header) >= HEADER_LEN
  }

  lemma {:induction false} WordSumAtLeast(data: seq<Byte>, i: nat, n: nat)
    requires i < n && 2 * n <= |data|
    ensures WordSum(data, n) >= WordAt(data, i)
  {
    if i < n - 1 {
      WordSumAtLeast(data, i, n - 1);
    }
  }

  /** Complements: a field completes a nonzero sum to all ones. */
  lemma FieldCompletes(s: nat, f: nat)
    requires s > 0 && f <= 0xFFFF
    ensures f == 65535 - Rep(s) <==> Rep(s + f) == 65535 && f != 0xFFFF
  {
    var q, r := (s - 1) / 65535, (s - 1) % 65535;
    if r + f < 65535 {
      Mod65535(s + f - 1, q, r + f);
    } else {
      Mod65535(s + f - 1, q + 1, r + f - 65535);
    }
  }

  /** The receive test accepts exactly the headers of at least five words for which the
      bytes it reads pass the sum test of section 1 of RFC 1071, except a field of 0xFFFF.
      With five words these bytes are the header. */
  lemma AcceptsExactly(header: seq<Byte>, after: seq<Byte>)
    requires |header| == HEADER_LEN && |after| >= 40
    ensures Accepts(header, after) <==>
      && StatedLength(header) >= HEADER_LEN && RfcTotal(Checked(header, after)) == 0xFFFF
      && WordAt(header, CHECKSUM_WORD) != 0xFFFF
  {
    if StatedLength(header) >= HEADER_LEN {
      var data, f := Checked(header, after), WordAt(header, CHECKSUM_WORD);
      var zeroed := WithField(data, CHECKSUM_WORD, 0);
      assert zeroed == Checked(WithField(header, CHECKSUM_WORD, 0), after);
      assert WordAt(data, CHECKSUM_WORD) == f;
      WithFieldTotal(data, CHECKSUM_WORD, 0);
      RfcTotalIsRep(zeroed);
      RfcTotalIsRep(data);
      WordSumAtLeast(zeroed, 0, |zeroed| / 2);
      assert zeroed[0] == header[0] && WordAt(zeroed, 0) > 0;
      FieldCompletes(Total(zeroed), f);
    }
  }

  lemma {:induction false} AppendSum(a: seq<Byte>, b: seq<Byte>, n: nat)
    requires |a| % 2 == 0 && 2 * n <= |b|
    ensures WordSum(a + b, |a| / 2 + n) == WordSum(a, |a| / 2) + WordSum(b, n)
  {
    hide WordAt;
    if n == 0 {
      PrefixSum(a, b, |a| / 2);
    } else {
      AppendSum(a, b, n - 1);
      AppendWord(a, b, n - 1);
    }
  }

  lemma AppendWord(a: seq<Byte>, b: seq<Byte>, i: nat)
    requires |a| % 2 == 0 && 2 * i + 1 < |b|
    ensures WordAt(a + b, |a| / 2 + i) == WordAt(b, i)
  {
    assert (a + b)[|a| + 2 * i] == b[2 * i] && (a + b)[|a| + 2 * i + 1] == b[2 * i + 1];
  }

  lemma {:induction false} PrefixSum(a: seq<Byte>, b: seq<Byte>, n: nat)
    requires 2 * n <= |a|
    ensures WordSum(a + b, n) == WordSum(a, n)
  {
    if n > 0 {
      PrefixSum(a, b, n - 1);
      assert (a + b)[2 * n - 2] == a[2 * n - 2] && (a + b)[2 * n - 1] == a[2 * n - 1];
    }
  }

  /** A correct header with options, whose field is not 0xFFFF, is accepted exactly when
      its options and the bytes read instead of them have the same sum modulo 65535. */
  lemma OptionsExactly(header: seq<Byte>, options: seq<Byte>, after: seq<Byte>)
    requires |header| == HEADER_LEN && |after| >= 40 && StatedLength(header) == HEADER_LEN + |options|
    requires RfcTotal(header + options) == 0xFFFF && WordAt(header, CHECKSUM_WORD) != 0xFFFF
    ensures Accepts(header, after) <==> Total(options) % 65535 == Total(after[..|options|]) % 65535
  {
    hide Accepts, RfcTotal, WordSum, Rep, WordAt, Checked;
    AcceptsExactly(header, after);
    var read := after[..|options|];
    assert Checked(header, after) == header + read by {
      CheckedIs(header, after, read);
    }
    SumTest(header, options);
    SumTest(header, read);
    SameRemainder(Total(header), Total(options), Total(read));
  }

  lemma CheckedIs(header: seq<Byte>, after: seq<Byte>, read: seq<Byte>)
    requires |header| == HEADER_LEN && |after| >= 40 && StatedLength(header) == HEADER_LEN + |read|
    requires read == after[..|read|]
    ensures Checked(header, after) == header + read
  {
    assert (header + after)[..HEADER_LEN + |read|] == header + read;
  }

  /** The RFC's test of a header and what follows it, as a sum. */
  lemma SumTest(header: seq<Byte>, rest: seq<Byte>)
    requires |header| == HEADER_LEN && header[0] > 0 && |rest| % 2 == 0
    ensures RfcTotal(header + rest) == 0xFFFF <==> (Total(header) + Total(rest)) % 65535 == 0
  {
    hide RfcTotal, WordSum;
    RfcTotalIsRep(header + rest);
    AppendSum(header, rest, |rest| / 2);
    WordSumAtLeast(header, 0, HEADER_LEN / 2);
    RepOfMod(Total(header) + Total(rest));
  }

  lemma SameRemainder(a: nat, b: nat, c: nat)
    requires (a + b) % 65535 == 0
    ensures (a + c) % 65535 == 0 <==> b % 65535 == c % 65535
  {
    var k, l, q := (a + b) / 65535, b / 65535, c / 65535;
    assert a + c == 65535 * (k - l + q) + (c % 65535 - b % 65535);
    var d := c % 65535 - b % 65535;
    if d >= 0 {
      Mod65535(a + c, k - l + q, d);
    } else {
      Mod65535(a + c, k - l + q - 1, d + 65535);
    }
  }

  /** The header ipv4_send builds before the checksum is stored. */
  function BareHeader(payload: nat, ident: nat, protocol: Byte, src: seq<Byte>, dst: seq<Byte>): (h: seq<Byte>)
    requires payload <= 1500 && ident <= 0xFFFF && |src| == |dst| == 4
    ensures |h| == HEADER_LEN && h[0] == 0x45 && WordAt(h, CHECKSUM_WORD) == 0
  {
    var len := HEADER_LEN + payload;
    var fixed: seq<Byte> := [0x45, 0, len / 256, len % 256, ident / 256, ident % 256, 0x40, 0, 64, protocol, 0, 0];
    fixed + src + dst
  }

  function SentHeader(payload: nat, ident: nat, protocol: Byte, src: seq<Byte>, dst: seq<Byte>): (h: seq<Byte>)
    requires payload <= 1500 && ident <= 0xFFFF && |src| == |dst| == 4
    ensures |h| == HEADER_LEN
  {
    var bare := BareHeader(payload, ident, protocol, src, dst);
    WithField(bare, CHECKSUM_WORD, Checksum(bare))
  }

  /** Every header ipv4_send builds passes the receive test and the RFC's. */
  lemma SentAccepted(payload: nat, ident: nat, protocol: Byte, src: seq<Byte>, dst: seq<Byte>, after: seq<Byte>)
    requires payload <= 1500 && ident <= 0xFFFF && |src| == |dst| == 4 && |after| >= 40
    ensures Accepts(SentHeader(payload, ident, protocol, src, dst), after)
    ensures RfcTotal(SentHeader(payload, ident, protocol, src, dst)) == 0xFFFF
  {
    var bare := BareHeader(payload, ident, protocol, src, dst);
    var sent := SentHeader(payload, ident, protocol, src, dst);
    StoredChecks(bare, CHECKSUM_WORD);
    ZeroedBack(bare, CHECKSUM_WORD, Checksum(bare));
  }

  /** What the header says: version 4 and five words, the whole length, the identification,
      don't-fragment, 64 hops, the protocol and both addresses. */
  lemma SentFields(payload: nat, ident: nat, protocol: Byte, src: seq<Byte>, dst: seq<Byte>)
    requires payload <= 1500 && ident <= 0xFFFF && |src| == |dst| == 4
    ensures var h := SentHeader(payload, ident, protocol, src, dst);
      && WordAt(h, 0) == 0x4500 && WordAt(h, 1) == 20 + payload && WordAt(h, 2) == ident && WordAt(h, 3) == 0x4000
      && h[8] == 64 && h[9] == protocol && h[12..16] == src && h[16..] == dst
  {
    hide Checksum;
    var bare := BareHeader(payload, ident, protocol, src, dst);
    assert bare[12..16] == src && bare[16..] == dst;
  }

  lemma ZeroedBack(data: seq<Byte>, k: nat, v: nat)
    requires 2 * k + 1 < |data| && v <= 0xFFFF && WordAt(data, k) == 0
    ensures WithField(WithField(data, k, v), k, 0) == data
  {
  }

  // ---------------------------------------------------------------------------
  // ICMP echo

  const ICMP_HEADER_LEN: nat := 8
  const REPLY_LIMIT: nat := 512

  /** icmp_handle_echo's reply; empty when the message is not an echo request. */
  function EchoReply(data: seq<Byte>): seq<Byte> {
    if |data| < ICMP_HEADER_LEN || data[0] != 8 then []
    else
      var n := if |data| < REPLY_LIMIT then |data| else REPLY_LIMIT;
      var bare := WithField(data[..n][0 := 0], 1, 0);
      WithField(bare, 1, Checksum(bare))
  }

  /** The reply is the request, cut to 512 bytes, with the type changed and a checksum
      under which the whole message checks to 0. */
  lemma EchoReplyChecks(data: seq<Byte>)
    ensures EchoReply(data) == [] <==> |data| < 8 || data[0] != 8
    ensures var r := EchoReply(data);
      r != [] ==>
        && |r| == (if |data| < 512 then |data| else 512)
        && r[0] == 0 && Checksum(r) == 0
        && forall i :: 0 < i < |r| && i != 2 && i != 3 ==> r[i] == data[i]
  {
    hide Checksum, WithField;
    if |data| >= 8 && data[0] == 8 {
      var n := if |data| < REPLY_LIMIT then |data| else REPLY_LIMIT;
      var bare := WithField(data[..n][0 := 0], 1, 0);
      StoredChecks(bare, 1);
    }
  }
}
