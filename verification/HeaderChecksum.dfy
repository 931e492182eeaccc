/** `editHeader` and `recalculateChecksums`: edit a captured IPv4 frame in place
    and rewrite its Internet checksums. */
module HeaderChecksum {
  import opened Bytes

  // ------------------------------------------------------------------
  // Byte access with the array's own rules: reads beyond the end see nothing,
  // writes beyond the end do nothing
  // ------------------------------------------------------------------

  function At(b: seq<Byte>, o: int): Byte {
    if 0 <= o < |b| then b[o] else 0
  }

  /** What lies beyond the end reads as zero. */
  lemma BeyondIsZero(b: seq<Byte>, o: int)
    ensures At(b + [0], o) == At(b, o)
  {
  }

  function Put(b: seq<Byte>, o: int, v: int): (r: seq<Byte>)
    ensures |r| == |b|
  {
    if 0 <= o < |b| then b[o := v % 256] else b
  }

  function PutWord(b: seq<Byte>, o: int, v: int): (r: seq<Byte>)
    ensures |r| == |b|
  {
    Put(Put(b, o, v / 256), o + 1, v)
  }

  // ------------------------------------------------------------------
  // Sums
  // ------------------------------------------------------------------

  /** The 16-bit word at even index `i` of `count` bytes; an odd tail is padded. */
  function Word(b: seq<Byte>, start: int, count: int, i: int): (w: int)
    ensures 0 <= w <= 0xffff
  {
    At(b, start + i) * 256 + if i + 1 < count then At(b, start + i + 1) else 0
  }

  /** The words from index `i` on. */
  function SumFrom(b: seq<Byte>, start: int, count: int, i: int): (s: int)
    decreases count - i
  {
    if i >= count then 0 else Word(b, start, count, i) + SumFrom(b, start, count, i + 2)
  }

  function SumWords(b: seq<Byte>, start: int, count: int): (s: int) {
    SumFrom(b, start, count, 0)
  }

  /** A number as the signed 32-bit operand of a shift. */
  function ToInt32(x: int): int {
    var m := x % 0x1_0000_0000;
    if m >= 0x8000_0000 then m - 0x1_0000_0000 else m
  }

  lemma ToInt32Meaning(x: int)
    ensures -0x8000_0000 <= ToInt32(x) < 0x8000_0000 && (x - ToInt32(x)) % 0x1_0000_0000 == 0
  {
  }

  /** `sum >> 16` and `sum & 0xffff`. */
  function High(x: int): int {
    ToInt32(x) / 0x1_0000
  }

  function Low(x: int): int {
    x % 0x1_0000
  }

  /** A positive multiple of 0xffff folds to 0xffff. */
  lemma MultipleFolds(x: nat, q: nat)
    requires x == 0xffff * q && q > 0
    ensures EndAround(x) == 0xffff
  {
    var k := EndAroundParts(x);
    var r := EndAround(x);
    assert r == 0xffff * (q - k);
  }

  /** Adding the complement of the folded sum makes the total fold to 0xffff. */
  lemma ComplementFolds(s: nat)
    ensures EndAround(s + (0xffff - EndAround(s))) == 0xffff
    ensures EndAround(s) == 0xffff ==> EndAround(s + 0xffff) == 0xffff
  {
    var k := EndAroundParts(s);
    MultipleFolds(s + (0xffff - EndAround(s)), k + 1);
    if EndAround(s) == 0xffff {
      MultipleFolds(s + 0xffff, k + 2);
    }
  }

  /** One fold keeps the end-around value while the shifts are exact, and
      shrinks the sum whatever it is. */
  lemma FoldStep(sum: int)
    requires sum >= -0x8000 && High(sum) != 0
    ensures var next := Low(sum) + High(sum);
            -0x8000 <= next <= 0x1_7ffe && (sum < 0 ==> next >= 0) && (0 <= sum < 0x2_0000 ==> 0 <= next < sum)
            && (0 <= sum < 0x8000_0000 ==> next >= 0 && EndAround(next) == EndAround(sum))
  {
    if 0 <= sum < 0x8000_0000 {
      assert ToInt32(sum) == sum;
      assert EndAround(sum) == EndAround(sum % 0x1_0000 + sum / 0x1_0000);
    }
  }

  lemma FoldDone(sum: int)
    requires High(sum) == 0 && 0 <= sum < 0x8000_0000
    ensures sum <= 0xffff
  {
    assert ToInt32(sum) == sum;
  }

  /** `finish`: fold with signed 32-bit shifts, then complement. */
  method Finish(sum0: nat) returns (c: nat)
    ensures c <= 0xffff
    ensures sum0 < 0x8000_0000 ==> c == 0xffff - EndAround(sum0)
  {
    hide High, Low, ToInt32, EndAround;
    var sum: int := sum0;
    while High(sum) != 0
      invariant sum0 < 0x8000_0000 ==> 0 <= sum < 0x8000_0000 && EndAround(sum) == EndAround(sum0)
      invariant sum >= -0x8000
      decreases if sum >= 0x2_0000 then 2 else if sum < 0 then 1 else 0, if sum >= 0 then sum else 0
    {
      FoldStep(sum);
      sum := Low(sum) + High(sum);
    }
    if sum0 < 0x8000_0000 {
      FoldDone(sum);
      FoldedIsFixed(sum);
    }
    c := 0xffff - sum % 0x1_0000;
  }

  lemma FoldedIsFixed(x: nat)
    requires x <= 0xffff
    ensures EndAround(x) == x
  {
  }

  // ------------------------------------------------------------------
  // How the sums depend on the bytes
  // ------------------------------------------------------------------

  ghost predicate Agree(a: seq<Byte>, b: seq<Byte>, lo: int, hi: int) {
    forall o :: lo <= o < hi ==> At(a, o) == At(b, o)
  }

  lemma {:induction false} SumSame(a: seq<Byte>, b: seq<Byte>, start: int, count: int, i: int)
    requires Agree(a, b, start + i, start + count)
    ensures SumFrom(a, start, count, i) == SumFrom(b, start, count, i)
    decreases count - i
  {
    if i < count {
      SumSame(a, b, start, count, i + 2);
    }
  }

  /** Replacing one word changes the sum by the difference of the words. */
  lemma {:induction false} SumReplaced(a: seq<Byte>, b: seq<Byte>, start: int, count: int, k: int, i: int)
    requires i <= k && (k - i) % 2 == 0 && k + 2 <= count
    requires Agree(a, b, start + i, start + k) && Agree(a, b, start + k + 2, start + count)
    ensures SumFrom(b, start, count, i) - SumFrom(a, start, count, i)
         == Word(b, start, count, k) - Word(a, start, count, k)
    decreases k - i
  {
    if i == k {
      SumSame(a, b, start, count, i + 2);
    } else {
      SumReplaced(a, b, start, count, k, i + 2);
    }
  }

  lemma {:induction false} SumBound(b: seq<Byte>, start: int, count: int, i: int)
    ensures 0 <= SumFrom(b, start, count, i)
    ensures i <= count ==> 2 * SumFrom(b, start, count, i) <= 0xffff * (count - i + 1)
    ensures i >= count ==> SumFrom(b, start, count, i) == 0
    decreases count - i
  {
    if i < count {
      SumBound(b, start, count, i + 2);
    }
  }

  /** Words written and read back. */
  lemma PutWordFacts(b: seq<Byte>, o: int, v: int)
    requires 0 <= o && o + 2 <= |b| && 0 <= v <= 0xffff
    ensures var r := PutWord(b, o, v);
            At(r, o) * 256 + At(r, o + 1) == v
            && forall p :: p != o && p != o + 1 ==> At(r, p) == At(b, p)
  {
    var r := PutWord(b, o, v);
    assert At(r, o) == (v / 256) % 256 && At(r, o + 1) == v % 256;
  }

  // ------------------------------------------------------------------
  // The frame
  // ------------------------------------------------------------------

  function WordAt(b: seq<Byte>, o: int): int {
    At(b, o) * 256 + At(b, o + 1)
  }

  function HeaderLength(b: seq<Byte>, ip: nat): nat {
    At(b, ip) % 16 * 4
  }

  function SegmentLength(b: seq<Byte>, ip: nat): int {
    var ihl := HeaderLength(b, ip);
    var total := WordAt(b, ip + 2);
    if total - ihl <= |b| - (ip + ihl) then total - ihl else |b| - (ip + ihl)
  }

  /** Where the transport checksum sits, relative to the segment; -1 for other protocols. */
  function ChecksumOffset(b: seq<Byte>, ip: nat): int {
    if At(b, ip + 9) == 6 then 16 else if At(b, ip + 9) == 17 then 6 else -1
  }

  predicate HoldsChecksum(b: seq<Byte>, ip: nat) {
    ChecksumOffset(b, ip) >= 0 && SegmentLength(b, ip) >= ChecksumOffset(b, ip) + 2
  }

  /** Header length of at least five words, all of it captured. */
  predicate CompleteHeader(b: seq<Byte>, ip: nat) {
    HeaderLength(b, ip) >= 20 && ip + HeaderLength(b, ip) <= |b|
  }

  function HeaderSum(b: seq<Byte>, ip: nat): int {
    SumWords(b, ip, HeaderLength(b, ip))
  }

  /** Addresses, protocol and length of the pseudo-header, then the segment. */
  function SegmentSum(b: seq<Byte>, ip: nat): int {
    SumWords(b, ip + 12, 8) + At(b, ip + 9) + SegmentLength(b, ip)
    + SumWords(b, ip + HeaderLength(b, ip), SegmentLength(b, ip))
  }

  /** The receiver's test of section 1 of RFC 1071, on exact integers. */
  ghost predicate Verifies(sum: int) {
    sum >= 0 && EndAround(sum) == 0xffff
  }

  /** Every byte a checksum rewrite may touch. */
  predicate IsChecksumByte(b: seq<Byte>, ip: nat, o: int) {
    o == ip + 10 || o == ip + 11
    || (HoldsChecksum(b, ip)
        && (var at := ip + HeaderLength(b, ip) + ChecksumOffset(b, ip); o == at || o == at + 1))
  }

  /** The running sums of a complete header stay below 2^31, so that the
      32-bit shifts of `Finish` are exact. */
  lemma SumsFit(b: seq<Byte>, ip: nat)
    requires CompleteHeader(b, ip)
    ensures 0 <= HeaderSum(b, ip) < 0x8000_0000
    ensures HoldsChecksum(b, ip) ==> 0 <= SegmentSum(b, ip) < 0x8000_0000
  {
    SumBound(b, ip, HeaderLength(b, ip), 0);
    SumBound(b, ip + 12, 8, 0);
    SumBound(b, ip + HeaderLength(b, ip), SegmentLength(b, ip), 0);
  }

  /** Fields outside the rewritten words keep the frame's layout. */
  lemma SameLayout(a: seq<Byte>, b: seq<Byte>, ip: nat)
    requires |a| == |b| && Agree(a, b, ip, ip + 10)
    ensures HeaderLength(a, ip) == HeaderLength(b, ip) && SegmentLength(a, ip) == SegmentLength(b, ip)
    ensures ChecksumOffset(a, ip) == ChecksumOffset(b, ip) && HoldsChecksum(a, ip) == HoldsChecksum(b, ip)
    ensures CompleteHeader(a, ip) == CompleteHeader(b, ip)
  {
  }

  /** Writing `c` over the zeroed header checksum adds `c` to the header sum. */
  lemma HeaderSumGains(a: seq<Byte>, ip: nat, c: nat)
    requires CompleteHeader(a, ip) && At(a, ip + 10) == 0 && At(a, ip + 11) == 0 && c <= 0xffff
    ensures HeaderSum(PutWord(a, ip + 10, c), ip) == HeaderSum(a, ip) + c
  {
    var b := PutWord(a, ip + 10, c);
    PutWordFacts(a, ip + 10, c);
    SameLayout(a, b, ip);
    SumReplaced(a, b, ip, HeaderLength(a, ip), 10, 0);
  }

  /** Likewise for the transport checksum, which leaves the header alone. */
  lemma SegmentSumGains(a: seq<Byte>, ip: nat, c: nat)
    requires CompleteHeader(a, ip) && HoldsChecksum(a, ip) && c <= 0xffff
    ensures var at := ip + HeaderLength(a, ip) + ChecksumOffset(a, ip);
            var b := PutWord(a, at, c);
            HeaderSum(b, ip) == HeaderSum(a, ip)
            && (At(a, at) == 0 && At(a, at + 1) == 0 ==> SegmentSum(b, ip) == SegmentSum(a, ip) + c)
  {
    var start := ip + HeaderLength(a, ip);
    var k := ChecksumOffset(a, ip);
    var b := PutWord(a, start + k, c);
    PutWordFacts(a, start + k, c);
    SameLayout(a, b, ip);
    SumSame(a, b, ip, HeaderLength(a, ip), 0);
    SumSame(a, b, ip + 12, 8, 0);
    SumReplaced(a, b, start, SegmentLength(a, ip), k, 0);
  }

  // ------------------------------------------------------------------
  // The rewrite, in place
  // ------------------------------------------------------------------

  method Store(bytes: array<Byte>, o: nat, v: int)
    modifies bytes
    ensures bytes[..] == Put(old(bytes[..]), o, v)
  {
    if o < bytes.Length {
      bytes[o] := v % 256;
    }
  }

  method StoreWord(bytes: array<Byte>, o: nat, v: int)
    modifies bytes
    ensures bytes[..] == PutWord(old(bytes[..]), o, v)
  {
    Store(bytes, o, v / 256);
    Store(bytes, o + 1, v);
  }

  method AddWords(bytes: array<Byte>, sum0: int, start: nat, count: int) returns (sum: int)
    ensures sum == sum0 + SumWords(bytes[..], start, count)
  {
    sum := sum0;
    var i := 0;
    while i < count
      invariant sum + SumFrom(bytes[..], start, count, i) == sum0 + SumWords(bytes[..], start, count)
      decreases count - i
    {
      sum := sum + Word(bytes[..], start, count, i);
      i := i + 2;
    }
  }

  method RewriteHeaderChecksum(bytes: array<Byte>, ip: nat)
    modifies bytes
    ensures forall o :: o != ip + 10 && o != ip + 11 ==> At(bytes[..], o) == At(old(bytes[..]), o)
    ensures CompleteHeader(old(bytes[..]), ip) ==> Verifies(HeaderSum(bytes[..], ip))
  {
    hide SumWords, EndAround, PutWord, SegmentLength, HeaderLength;
    ghost var before := bytes[..];
    StoreWord(bytes, ip + 10, 0);
    ghost var zeroed := bytes[..];
    PutWordEffect(before, ip + 10, 0);
    SameLayout(before, zeroed, ip);
    var ihl := HeaderLength(bytes[..], ip);
    var sum := AddWords(bytes, 0, ip, ihl);
    SumNonNegative(zeroed, ip, ihl);
    var c := Finish(sum);
    StoreWord(bytes, ip + 10, c);
    PutWordEffect(zeroed, ip + 10, c);
    if CompleteHeader(zeroed, ip) {
      SumsFit(zeroed, ip);
      HeaderSumGains(zeroed, ip, c);
      ComplementFolds(sum);
    }
  }

  lemma SumNonNegative(b: seq<Byte>, start: int, count: int)
    ensures SumWords(b, start, count) >= 0
  {
    SumBound(b, start, count, 0);
  }

  /** Like `PutWordFacts`, with no demand on the offset. */
  lemma PutWordEffect(b: seq<Byte>, o: int, v: int)
    requires 0 <= v <= 0xffff
    ensures forall p :: p != o && p != o + 1 ==> At(PutWord(b, o, v), p) == At(b, p)
    ensures 0 <= o && o + 2 <= |b| ==> WordAt(PutWord(b, o, v), o) == v
  {
    if 0 <= o && o + 2 <= |b| {
      PutWordFacts(b, o, v);
    }
  }

  method RewriteSegmentChecksum(bytes: array<Byte>, ip: nat)
    modifies bytes
    ensures !HoldsChecksum(old(bytes[..]), ip) ==> bytes[..] == old(bytes[..])
    ensures var at := ip + HeaderLength(old(bytes[..]), ip) + ChecksumOffset(old(bytes[..]), ip);
            forall o :: o != at && o != at + 1 ==> At(bytes[..], o) == At(old(bytes[..]), o)
    ensures CompleteHeader(old(bytes[..]), ip) ==>
              HeaderSum(bytes[..], ip) == HeaderSum(old(bytes[..]), ip)
              && (HoldsChecksum(old(bytes[..]), ip) ==> Verifies(SegmentSum(bytes[..], ip)))
    ensures var at := ip + HeaderLength(old(bytes[..]), ip) + ChecksumOffset(old(bytes[..]), ip);
            HoldsChecksum(old(bytes[..]), ip) && At(old(bytes[..]), ip + 9) == 17 ==> WordAt(bytes[..], at) != 0
  {
    ghost var before := bytes[..];
    if !HoldsChecksum(bytes[..], ip) {
      return;
    }
    var ihl, length := HeaderLength(bytes[..], ip), SegmentLength(bytes[..], ip);
    var protocol := At(bytes[..], ip + 9);
    var at := ip + ihl + ChecksumOffset(bytes[..], ip);
    assert length >= 0;
    hide SumWords, EndAround, PutWord, SegmentLength, HeaderLength, ChecksumOffset, HoldsChecksum, CompleteHeader, Verifies,
      SegmentSum, HeaderSum;
    StoreWord(bytes, at, 0);
    ghost var zeroed := bytes[..];
    PutWordEffect(before, at, 0);
    var checksum, sum := ChecksumOver(bytes, ip, ihl, protocol, length);
    StoreWord(bytes, at, checksum);
    PutWordEffect(zeroed, at, checksum);
    if CompleteHeader(before, ip) {
      SegmentVerifies(before, zeroed, ip, sum, checksum);
    }
  }

  /** The checksum to store over the zeroed field; zero is sent as 0xffff by UDP. */
  method ChecksumOver(bytes: array<Byte>, ip: nat, ihl: nat, protocol: nat, length: nat) returns (checksum: nat, sum: nat)
    ensures sum == SumWords(bytes[..], ip + 12, 8) + protocol + length + SumWords(bytes[..], ip + ihl, length)
    ensures checksum <= 0xffff && (protocol == 17 ==> checksum != 0)
    ensures sum < 0x8000_0000 ==> EndAround(sum + checksum) == 0xffff
  {
    hide SumWords, EndAround;
    SumNonNegative(bytes[..], ip + 12, 8);
    SumNonNegative(bytes[..], ip + ihl, length);
    var first := AddWords(bytes, 0, ip + 12, 8);
    var total := AddWords(bytes, first + protocol + length, ip + ihl, length);
    sum := total;
    checksum := Finish(sum);
    ComplementFolds(sum);
    if protocol == 17 && checksum == 0 {
      checksum := 0xffff;
    }
  }

  /** The checksum written over the zeroed field makes the segment verify. */
  lemma SegmentVerifies(before: seq<Byte>, zeroed: seq<Byte>, ip: nat, sum: nat, c: nat)
    requires CompleteHeader(before, ip) && HoldsChecksum(before, ip) && c <= 0xffff
    requires var at := ip + HeaderLength(before, ip) + ChecksumOffset(before, ip); zeroed == PutWord(before, at, 0)
    requires sum == SumWords(zeroed, ip + 12, 8) + At(before, ip + 9) + SegmentLength(before, ip)
                    + SumWords(zeroed, ip + HeaderLength(before, ip), SegmentLength(before, ip))
    requires sum < 0x8000_0000 ==> EndAround(sum + c) == 0xffff
    ensures var b := PutWord(zeroed, ip + HeaderLength(before, ip) + ChecksumOffset(before, ip), c);
            HeaderSum(b, ip) == HeaderSum(before, ip) && Verifies(SegmentSum(b, ip))
  {
    var at := ip + HeaderLength(before, ip) + ChecksumOffset(before, ip);
    hide SumWords, EndAround;
    PutWordFacts(before, at, 0);
    SameLayout(before, zeroed, ip);
    SegmentSumGains(before, ip, 0);
    SegmentSumGains(zeroed, ip, c);
    SumsFit(zeroed, ip);
    assert sum == SegmentSum(zeroed, ip);
  }

  /** Only checksum bytes change, and a complete header leaves both sums
      folding to 0xffff. */
  method RecalculateChecksums(bytes: array<Byte>, ip: nat)
    modifies bytes
    ensures forall o :: !IsChecksumByte(old(bytes[..]), ip, o) ==> At(bytes[..], o) == At(old(bytes[..]), o)
    ensures CompleteHeader(old(bytes[..]), ip) ==> Repaired(old(bytes[..]), bytes[..], ip)
  {
    ghost var before := bytes[..];
    RewriteHeaderChecksum(bytes, ip);
    ghost var middle := bytes[..];
    SameLayout(before, middle, ip);
    RewriteSegmentChecksum(bytes, ip);
    if CompleteHeader(before, ip) {
      SameLayout(middle, bytes[..], ip);
    }
  }

  /** Both sums verify, and a datagram never carries the zero checksum that
      means "none". */
  ghost predicate Repaired(before: seq<Byte>, after: seq<Byte>, ip: nat) {
    && CompleteHeader(after, ip)
    && HoldsChecksum(after, ip) == HoldsChecksum(before, ip)
    && Verifies(HeaderSum(after, ip))
    && (HoldsChecksum(after, ip) ==> Verifies(SegmentSum(after, ip)))
    && (HoldsChecksum(after, ip) && At(after, ip + 9) == 17 ==>
          WordAt(after, ip + HeaderLength(after, ip) + ChecksumOffset(after, ip)) != 0)
  }

  // ------------------------------------------------------------------
  // Editing a field
  // ------------------------------------------------------------------

  /** An editable path with its parsed value. */
  datatype Edit =
    | EthernetAddress(source: bool, octets: seq<int>)
    | Ttl(value: int)
    | Ipv4Address(source: bool, parts: seq<int>)
    | Port(source: bool, value: int)
    | TcpFlags(value: int)
    | OtherPath

  datatype Outcome = Edited | EthernetMissing | Ipv4Missing | BadMac | BadAddress | Unsupported

  /** Behind one optional 802.1Q tag. */
  function IpOffset(b: seq<Byte>): nat {
    if WordAt(b, 12) == 0x8100 then 18 else 14
  }

  predicate HasIpv4(b: seq<Byte>) {
    |b| >= IpOffset(b) + 20 && WordAt(b, IpOffset(b) - 2) == 0x0800
  }

  predicate BadParts(parts: seq<int>) {
    |parts| != 4 || exists x :: x in parts && !(0 <= x <= 255)
  }

  /** The place of a field, and the bytes an edit puts there. */
  function FieldOffset(b: seq<Byte>, edit: Edit): nat {
    var ip := IpOffset(b);
    match edit
    case EthernetAddress(source, _) => if source then 6 else 0
    case Ttl(_) => ip + 8
    case Ipv4Address(source, _) => ip + if source then 12 else 16
    case Port(source, _) => ip + HeaderLength(b, ip) + if source then 0 else 2
    case TcpFlags(_) => ip + HeaderLength(b, ip) + 13
    case OtherPath => 0
  }

  function FieldBytes(edit: Edit): seq<int> {
    match edit
    case EthernetAddress(_, octets) => octets
    case Ttl(value) => [value]
    case Ipv4Address(_, parts) => parts
    case Port(_, value) => [value / 256, value]
    case TcpFlags(value) => [value]
    case OtherPath => []
  }

  /** `b` with the values stored from `at` on, as far as the frame reaches. */
  function Overlay(b: seq<Byte>, at: nat, values: seq<int>): (r: seq<Byte>)
    ensures |r| == |b|
  {
    seq(|b|, (o: nat) requires o < |b| => if at <= o < at + |values| then values[o - at] % 256 else b[o])
  }

  method StoreAll(bytes: array<Byte>, at: nat, values: seq<int>)
    modifies bytes
    ensures bytes[..] == Overlay(old(bytes[..]), at, values)
  {
    var i := 0;
    while i < |values|
      invariant 0 <= i <= |values|
      invariant bytes[..] == Overlay(old(bytes[..]), at, values[..i])
    {
      Store(bytes, at + i, values[i]);
      i := i + 1;
    }
    assert values[..i] == values;
  }

  /** An edit of an IPv4 frame moves none of the fields that lay it out, and
      the edited field shares no byte with a checksum. */
  lemma EditKeepsLayout(b: seq<Byte>, edit: Edit)
    requires HasIpv4(b) && CompleteHeader(b, IpOffset(b))
    requires !edit.EthernetAddress? && (edit.Ipv4Address? ==> !BadParts(edit.parts))
    ensures var ip := IpOffset(b);
            var r := Overlay(b, FieldOffset(b, edit), FieldBytes(edit));
            CompleteHeader(r, ip) && HoldsChecksum(r, ip) == HoldsChecksum(b, ip)
            && forall o :: FieldOffset(b, edit) <= o < FieldOffset(b, edit) + |FieldBytes(edit)|
                           ==> !IsChecksumByte(r, ip, o)
  {
    var ip := IpOffset(b);
    var r := Overlay(b, FieldOffset(b, edit), FieldBytes(edit));
    assert At(r, ip) == At(b, ip);
    assert At(r, ip + 2) == At(b, ip + 2) && At(r, ip + 3) == At(b, ip + 3) && At(r, ip + 9) == At(b, ip + 9);
    assert HeaderLength(r, ip) == HeaderLength(b, ip);
    assert SegmentLength(r, ip) == SegmentLength(b, ip);
  }

  /** Stores one IPv4, TCP or UDP field and repairs the checksums. */
  method ReplaceField(bytes: array<Byte>, edit: Edit)
    requires HasIpv4(bytes[..]) && !edit.EthernetAddress? && (edit.Ipv4Address? ==> !BadParts(edit.parts))
    modifies bytes
    ensures FieldReplaced(old(bytes[..]), bytes[..], edit)
  {
    hide Overlay, HasIpv4;
    ghost var before := bytes[..];
    var ip := IpOffset(bytes[..]);
    var at := FieldOffset(bytes[..], edit);
    if CompleteHeader(before, ip) {
      EditKeepsLayout(before, edit);
    }
    StoreAll(bytes, at, FieldBytes(edit));
    hide IsChecksumByte, HoldsChecksum, CompleteHeader, FieldBytes, FieldOffset, IpOffset, Verifies;
    RecalculateChecksums(bytes, ip);
  }

  /** The frame with the new field differs from `after` in checksum bytes only,
      and the checksums of a complete header hold. */
  ghost predicate FieldReplaced(before: seq<Byte>, after: seq<Byte>, edit: Edit) {
    var ip, at := IpOffset(before), FieldOffset(before, edit);
    var wanted := Overlay(before, at, FieldBytes(edit));
    && (forall o :: !IsChecksumByte(wanted, ip, o) ==> At(after, o) == At(wanted, o))
    && (CompleteHeader(before, ip) ==> Repaired(before, after, ip))
  }

  /** In a complete frame the field then reads back as the value given. */
  lemma FieldReadsBack(before: seq<Byte>, after: seq<Byte>, edit: Edit, k: nat)
    requires HasIpv4(before) && CompleteHeader(before, IpOffset(before))
    requires !edit.EthernetAddress? && (edit.Ipv4Address? ==> !BadParts(edit.parts))
    requires |after| == |before| && FieldReplaced(before, after, edit)
    requires k < |FieldBytes(edit)| && FieldOffset(before, edit) + k < |before|
    ensures after[FieldOffset(before, edit) + k] == FieldBytes(edit)[k] % 256
  {
    hide IsChecksumByte, HoldsChecksum, CompleteHeader, IpOffset, Verifies, HasIpv4;
    var o := FieldOffset(before, edit) + k;
    EditKeepsLayout(before, edit);
    assert At(after, o) == At(Overlay(before, FieldOffset(before, edit), FieldBytes(edit)), o);
  }

  /** The edit happens exactly when the frame and the value allow it; otherwise
      the frame is as it was. */
  method EditHeader(bytes: array<Byte>, edit: Edit) returns (r: Outcome)
    modifies bytes
    ensures r.Edited? || bytes[..] == old(bytes[..])
    ensures r.EthernetMissing? <==> bytes.Length < 14
    ensures r.BadMac? <==> bytes.Length >= 14 && edit.EthernetAddress? && |edit.octets| != 6
    ensures r.Ipv4Missing? <==> bytes.Length >= 14 && !edit.EthernetAddress? && !HasIpv4(old(bytes[..]))
    ensures r.BadAddress? <==> bytes.Length >= 14 && edit.Ipv4Address? && HasIpv4(old(bytes[..])) && BadParts(edit.parts)
    ensures r.Unsupported? <==> bytes.Length >= 14 && edit.OtherPath? && HasIpv4(old(bytes[..]))
    ensures r.Edited? && edit.EthernetAddress? ==>
              bytes[..] == Overlay(old(bytes[..]), FieldOffset(old(bytes[..]), edit), FieldBytes(edit))
    ensures r.Edited? && !edit.EthernetAddress? ==> FieldReplaced(old(bytes[..]), bytes[..], edit)
  {
    hide FieldReplaced, Overlay, HasIpv4, FieldOffset, BadParts;
    if bytes.Length < 14 {
      return EthernetMissing;
    }
    if edit.EthernetAddress? {
      if |edit.octets| != 6 {
        return BadMac;
      }
      StoreAll(bytes, FieldOffset(bytes[..], edit), edit.octets);
      return Edited;
    }
    if !HasIpv4(bytes[..]) {
      return Ipv4Missing;
    }
    if edit.Ipv4Address? && BadParts(edit.parts) {
      return BadAddress;
    }
    if edit.OtherPath? {
      return Unsupported;
    }
    ReplaceField(bytes, edit);
    return Edited;
  }
}
