/** Edited frames in the terms of the protocols: byte offsets of Ethernet, IPv4, TCP and
    UDP fields, and the receiver's test of both checksums. */
module Frames {
  import opened Bytes
  import Crc
  import opened HeaderChecksum

  /** Where the IPv4 header starts: behind two addresses, an optional tag, and a type. */
  ghost predicate Starts(b: seq<Byte>, ip: nat)
    requires |b| >= 14
  {
    if b[12] == 0x81 && b[13] == 0 then ip == 18 else ip == 14
  }

  /** A captured IPv4 header of `ihl` bytes at `ip`. */
  ghost predicate Framed(b: seq<Byte>, ip: nat, ihl: nat) {
    && |b| >= 34 && Starts(b, ip) && b[ip - 2] == 8 && b[ip - 1] == 0
    && ihl == b[ip] % 16 * 4 && ihl >= 20 && ip + ihl <= |b|
  }

  lemma FramedIff(b: seq<Byte>, ip: nat, ihl: nat)
    ensures Framed(b, ip, ihl) <==>
            HasIpv4(b) && ip == IpOffset(b) && ihl == HeaderLength(b, ip) && CompleteHeader(b, ip)
  {
  }

  /** The frame holds twenty bytes from where the header starts, behind the IPv4 type. */
  lemma HasIpv4Iff(b: seq<Byte>, ip: nat)
    requires |b| >= 14 && Starts(b, ip)
    ensures HasIpv4(b) <==> |b| >= ip + 20 && b[ip - 2] == 8 && b[ip - 1] == 0
  {
  }

  lemma BadPartsIff(parts: seq<int>)
    ensures BadParts(parts) <==>
            !(|parts| == 4 && 0 <= parts[0] < 256 && 0 <= parts[1] < 256 && 0 <= parts[2] < 256 && 0 <= parts[3] < 256)
  {
    assert |parts| == 4 ==> parts[0] in parts && parts[1] in parts && parts[2] in parts && parts[3] in parts;
  }

  /** The bytes from `at` on are `values`, as far as the frame reaches. */
  ghost predicate Shows(b: seq<Byte>, at: nat, values: seq<int>) {
    forall k :: 0 <= k < |values| && at + k < |b| ==> b[at + k] == values[k] % 256
  }

  /** The edited field in the edited frame. */
  ghost predicate FieldShows(b: seq<Byte>, ip: nat, ihl: nat, edit: Edit) {
    match edit
    case EthernetAddress(source, octets) => Shows(b, if source then 6 else 0, octets)
    case Ttl(value) => Shows(b, ip + 8, [value])
    case Ipv4Address(source, parts) => Shows(b, if source then ip + 12 else ip + 16, parts)
    case Port(source, value) => Shows(b, if source then ip + ihl else ip + ihl + 2, [value / 256, value])
    case TcpFlags(value) => Shows(b, ip + ihl + 13, [value])
    case OtherPath => true
  }

  /** The place and size of the edited field. */
  ghost predicate InField(o: nat, ip: nat, ihl: nat, edit: Edit) {
    match edit
    case EthernetAddress(source, octets) => if source then 6 <= o < 12 else o < 6
    case Ttl(_) => o == ip + 8
    case Ipv4Address(source, _) => if source then ip + 12 <= o < ip + 16 else ip + 16 <= o < ip + 20
    case Port(source, _) => if source then ip + ihl <= o < ip + ihl + 2 else ip + ihl + 2 <= o < ip + ihl + 4
    case TcpFlags(_) => o == ip + ihl + 13
    case OtherPath => false
  }

  /** The header checksum, and that of TCP or UDP. */
  ghost predicate InChecksum(b: seq<Byte>, o: nat, ip: nat, ihl: nat)
    requires ip + 9 < |b|
  {
    || o == ip + 10 || o == ip + 11
    || (b[ip + 9] == 6 && (o == ip + ihl + 16 || o == ip + ihl + 17))
    || (b[ip + 9] == 17 && (o == ip + ihl + 6 || o == ip + ihl + 7))
  }

  /** The segment: what the total length says, as far as it is captured. */
  ghost predicate HasSegment(b: seq<Byte>, ip: nat, ihl: nat, length: int)
    requires ip + 3 < |b|
  {
    var total := 256 * (b[ip + 2] as int) + b[ip + 3];
    length == if total <= |b| - ip then total - ihl else |b| - ip - ihl
  }

  // ------------------------------------------------------------------
  // The sums
  // ------------------------------------------------------------------

  lemma {:induction false} SumIsWordSum(b: seq<Byte>, start: nat, count: nat, i: nat)
    requires start + count <= |b| && i <= count + 1 && i % 2 == 0
    ensures SumFrom(b, start, count, i) == if i < count then Crc.WordSum(b[start + i..start + count]) else 0
    decreases count + 1 - i
  {
    if i < count {
      var rest := b[start + i..start + count];
      if i + 1 < count {
        SumIsWordSum(b, start, count, i + 2);
        var more := b[start + i + 2..start + count];
        assert rest == [b[start + i], b[start + i + 1]] + more;
        Crc.WordsAdd([b[start + i], b[start + i + 1]], more);
        Crc.SmallWords(b[start + i], b[start + i + 1]);
        assert i + 2 == count ==> more == [];
      } else {
        assert rest == [b[start + i]];
        Crc.SmallWords(b[start + i], 0);
      }
    }
  }

  lemma SumsAre(b: seq<Byte>, ip: nat, ihl: nat, length: int)
    requires Framed(b, ip, ihl) && HasSegment(b, ip, ihl, length)
    ensures HeaderSum(b, ip) == Crc.WordSum(b[ip..ip + ihl]) && SegmentLength(b, ip) == length
    ensures length >= 0 ==>
              SegmentSum(b, ip) == Crc.WordSum(b[ip + 12..ip + 20]) + b[ip + 9] + length + Crc.WordSum(b[ip + ihl..ip + ihl + length])
  {
    hide Crc.WordSum, SumFrom;
    FramedIff(b, ip, ihl);
    SumIsWordSum(b, ip, ihl, 0);
    SumIsWordSum(b, ip + 12, 8, 0);
    if length >= 0 {
      SumIsWordSum(b, ip + ihl, length, 0);
      assert length == 0 ==> b[ip + ihl..ip + ihl + length] == [];
      Crc.SmallWords(0, 0);
    }
  }

  lemma Untouched(before: seq<Byte>, after: seq<Byte>, ip: nat, ihl: nat, edit: Edit, o: nat)
    requires Framed(before, ip, ihl) && |after| == |before| && FieldReplaced(before, after, edit)
    requires !edit.EthernetAddress? && (edit.Ipv4Address? ==> !BadParts(edit.parts))
    requires o < |before| && !InField(o, ip, ihl, edit) && !InChecksum(before, o, ip, ihl)
    ensures after[o] == before[o]
  {
    FramedIff(before, ip, ihl);
    var wanted := Overlay(before, FieldOffset(before, edit), FieldBytes(edit));
    assert At(wanted, ip) == At(before, ip) && At(wanted, ip + 9) == At(before, ip + 9);
    hide Repaired, SegmentLength;
    assert !IsChecksumByte(wanted, ip, o);
    assert At(after, o) == At(wanted, o);
  }

  lemma Shown(before: seq<Byte>, after: seq<Byte>, ip: nat, ihl: nat, edit: Edit)
    requires Framed(before, ip, ihl) && |after| == |before| && FieldReplaced(before, after, edit)
    requires !edit.EthernetAddress? && (edit.Ipv4Address? ==> !BadParts(edit.parts))
    ensures FieldShows(after, ip, ihl, edit)
  {
    FramedIff(before, ip, ihl);
    hide FieldReplaced, CompleteHeader;
    var at, values := FieldOffset(before, edit), FieldBytes(edit);
    forall k | 0 <= k < |values| && at + k < |before|
      ensures after[at + k] == values[k] % 256
    {
      FieldReadsBack(before, after, edit, k);
    }
    assert Shows(after, at, values);
  }

  /** An edited frame has the header in the same place, shows the new value in the
      edited field and is otherwise unchanged but for its checksums. */
  lemma EditedFields(before: seq<Byte>, after: seq<Byte>, ip: nat, ihl: nat, edit: Edit)
    requires Framed(before, ip, ihl) && |after| == |before| && FieldReplaced(before, after, edit)
    requires !edit.EthernetAddress? && (edit.Ipv4Address? ==> !BadParts(edit.parts))
    ensures Framed(after, ip, ihl) && FieldShows(after, ip, ihl, edit)
    ensures forall o: nat :: o < |before| && !InField(o, ip, ihl, edit) && !InChecksum(before, o, ip, ihl) ==> after[o] == before[o]
  {
    hide FieldReplaced, FieldShows;
    Shown(before, after, ip, ihl, edit);
    forall o: nat | o < |before| && !InField(o, ip, ihl, edit) && !InChecksum(before, o, ip, ihl)
      ensures after[o] == before[o]
    {
      Untouched(before, after, ip, ihl, edit, o);
    }
  }

  lemma SumsVerify(before: seq<Byte>, after: seq<Byte>, ip: nat, ihl: nat, length: int)
    requires Repaired(before, after, ip) && Framed(after, ip, ihl) && HasSegment(after, ip, ihl, length)
    ensures EndAround(Crc.WordSum(after[ip..ip + ihl])) == 0xffff
    ensures (after[ip + 9] == 6 && length >= 18) || (after[ip + 9] == 17 && length >= 8) ==>
              EndAround(Crc.WordSum(after[ip + 12..ip + 20]) + after[ip + 9] + length
                        + Crc.WordSum(after[ip + ihl..ip + ihl + length])) == 0xffff
    ensures after[ip + 9] == 17 && length >= 8 ==> after[ip + ihl + 6] != 0 || after[ip + ihl + 7] != 0
  {
    hide EndAround, HeaderSum, SegmentSum, Crc.WordSum, SegmentLength;
    FramedIff(after, ip, ihl);
    SumsAre(after, ip, ihl, length);
  }

  /** Its checksums pass the receiver's test: the header's words, and for TCP and UDP
      the addresses, the protocol, the length and the words of the segment, add up to
      0xffff with end-around carry.  A UDP checksum is not the zero that means none. */
  lemma EditedChecksums(before: seq<Byte>, after: seq<Byte>, ip: nat, ihl: nat, edit: Edit, length: int)
    requires Framed(before, ip, ihl) && |after| == |before| && FieldReplaced(before, after, edit)
    requires !edit.EthernetAddress? && (edit.Ipv4Address? ==> !BadParts(edit.parts))
    requires HasSegment(before, ip, ihl, length)
    ensures EndAround(Crc.WordSum(after[ip..ip + ihl])) == 0xffff
    ensures (before[ip + 9] == 6 && length >= 18) || (before[ip + 9] == 17 && length >= 8) ==>
              EndAround(Crc.WordSum(after[ip + 12..ip + 20]) + before[ip + 9] + length
                        + Crc.WordSum(after[ip + ihl..ip + ihl + length])) == 0xffff
    ensures before[ip + 9] == 17 && length >= 8 ==> after[ip + ihl + 6] != 0 || after[ip + ihl + 7] != 0
  {
    hide FieldShows, EndAround, Crc.WordSum, Repaired;
    EditedFields(before, after, ip, ihl, edit);
    FramedIff(before, ip, ihl);
    assert after[ip + 9] == before[ip + 9] && after[ip + 2] == before[ip + 2] && after[ip + 3] == before[ip + 3];
    SumsVerify(before, after, ip, ihl, length);
  }

  /** An edited Ethernet address, and nothing else. */
  lemma EditedAddress(before: seq<Byte>, after: seq<Byte>, edit: Edit)
    requires edit.EthernetAddress? && |edit.octets| == 6 && |before| >= 14
    requires after == Overlay(before, FieldOffset(before, edit), FieldBytes(edit))
    ensures FieldShows(after, 14, 20, edit)
    ensures |after| == |before| && forall o: nat :: o < |before| && !InField(o, 14, 20, edit) ==> after[o] == before[o]
  {
  }
}
