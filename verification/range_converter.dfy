/**
 * The range converter of setup.go: getIPRangeEnd and getIPRange. A CIDR block
 * (section 3.1 of RFC 4632) or a single address becomes a half-open range
 * [start, end) of raw addresses, for the permanent interval sets of the
 * firewall.
 */
module RangeConverter {
  import opened Wrappers
  import opened Bytes
  import opened NetIP

  /**
   * What net.ParseCIDR and net.ParseIP make of one configuration token.
   * Cidr: ParseCIDR succeeded; `network` is the masked network address
   * (4 bytes for IPv4 text, 16 for IPv6 text) and `prefixLen` the mask's
   * one-bit count. Bare: ParseCIDR failed and ParseIP succeeded; ParseIP
   * returns 16 bytes for both families. NotAnAddress: both failed.
   */
  datatype ParsedAddress =
    | Cidr(network: Address, prefixLen: nat)
    | Bare(ip: Address)
    | NotAnAddress

  /**
   * CantExtractRange is the error getIPRange returns. Panic stands for the
   * process crashing inside getIPRangeEnd: big.Int.FillBytes panics when the
   * end does not fit in the start's width, and a prefix longer than the
   * start's bit width makes the unsigned shift count wrap around.
   */
  datatype RangeError = CantExtractRange | Panic

  /** The conditions getIPRangeEnd assumes without checking. */
  predicate RangeEndDefined(start: Address, maskedBits: nat)
  {
    && maskedBits <= 8 * |start|
    && Value(start) + Pow2(8 * |start| - maskedBits) < Pow2(8 * |start|)
  }

  /**
   * getIPRangeEnd: the exclusive end of the block of 2^(width - maskedBits)
   * addresses that begins at `start`, written back into the width of `start`.
   */
  function IpRangeEnd(start: Address, maskedBits: nat): (end: Address)
    requires RangeEndDefined(start, maskedBits)
    ensures |end| == |start|
    ensures Value(end) == Value(start) + Pow2(8 * |start| - maskedBits)
  {
    FillBytes(Value(start) + Pow2(8 * |start| - maskedBits), |start|)
  }

  /** The end is the only address of the start's width with that value. */
  lemma IpRangeEndUnique(start: Address, maskedBits: nat, end: Address)
    requires RangeEndDefined(start, maskedBits)
    requires |end| == |start| && Value(end) == Value(start) + Pow2(8 * |start| - maskedBits)
    ensures IpRangeEnd(start, maskedBits) == end
  {
    ValueInjective(IpRangeEnd(start, maskedBits), end);
  }

  /** An address of the start's width whose value is start + 2^(width - maskedBits) is the end, which therefore fits. */
  lemma IpRangeEndOf(start: Address, maskedBits: nat, end: Address)
    requires maskedBits <= 8 * |start| && |end| == |start|
    requires Value(end) == Value(start) + Pow2(8 * |start| - maskedBits)
    ensures RangeEndDefined(start, maskedBits) && IpRangeEnd(start, maskedBits) == end
  {
    IpRangeEndUnique(start, maskedBits, end);
  }

  /** getIPRangeEnd followed by the crash it hits when its assumptions fail. */
  function RangeFrom(start: Address, maskedBits: nat): (r: Result<(Address, Address), RangeError>)
    ensures r.Ok? <==> RangeEndDefined(start, maskedBits)
    ensures r.Err? ==> r.error == Panic
    ensures r.Ok? ==> r.value.0 == start && r.value.1 == IpRangeEnd(start, maskedBits)
  {
    if RangeEndDefined(start, maskedBits) then Ok((start, IpRangeEnd(start, maskedBits))) else Err(Panic)
  }

  /** The start getIPRange uses: the 4-byte form when there is one. */
  function RangeStart(ip: Address): (s: Address)
    ensures To4(ip) != [] ==> s == To4(ip) && |s| == IPv4Len
    ensures To4(ip) == [] ==> s == ip
  {
    if To4(ip) != [] then To4(ip) else ip
  }

  /** getIPRange over the parsed token. */
  function RangeOf(p: ParsedAddress): Result<(Address, Address), RangeError>
  {
    match p
    case Cidr(network, prefixLen) =>
      RangeFrom(RangeStart(network), prefixLen)
    case Bare(ip) =>
      var start := RangeStart(ip);
      RangeFrom(start, if To4(ip) != [] then 32 else 128)
    case NotAnAddress =>
      Err(CantExtractRange)
  }

  /** The largest address of the width: the one whose successor does not fit. */
  predicate AllOnes(a: Address)
  {
    Value(a) + 1 == Pow2(8 * |a|)
  }

  /**
   * A bare address becomes the one-address range: a 4-byte start for IPv4
   * (or IPv4-mapped) text, the 16 bytes otherwise, and end = start + 1 in the
   * same width. Only the all-ones address of its width crashes.
   */
  lemma {:induction false} RangeOfBare(ip: Address)
    requires |ip| == IPv6Len
    ensures var r := RangeOf(Bare(ip));
      var start := RangeStart(ip);
      && |start| == (if IsV4Mapped(ip) then IPv4Len else IPv6Len)
      && (r.Err? <==> AllOnes(start))
      && (r.Err? ==> r.error == Panic)
      && (r.Ok? ==> r.value.0 == start && |r.value.1| == |start| && Value(r.value.1) == Value(start) + 1)
  {
    var start := RangeStart(ip);
    var bits := if To4(ip) != [] then 32 else 128;
    assert 8 * |start| == bits;
    assert Pow2(8 * |start| - bits) == 1;
  }

  /**
   * A CIDR block becomes [network, network + 2^(width - prefix)), the network
   * in its 4-byte form when it is IPv4. It crashes exactly when the prefix is
   * longer than that width or the block ends past the top of the address space.
   */
  lemma RangeOfCidr(network: Address, prefixLen: nat)
    ensures var r := RangeOf(Cidr(network, prefixLen));
      var start := RangeStart(network);
      && (r.Err? <==> prefixLen > 8 * |start| || Value(start) + Pow2(8 * |start| - prefixLen) >= Pow2(8 * |start|))
      && (r.Err? ==> r.error == Panic)
      && (r.Ok? ==> r.value.0 == start && |r.value.1| == |start|
                    && Value(r.value.1) - Value(r.value.0) == Pow2(8 * |start| - prefixLen))
  {
  }

  /** Text that is neither a CIDR nor an address yields the error, not a range. */
  lemma RangeOfNotAnAddress()
    ensures RangeOf(NotAnAddress) == Err(CantExtractRange)
  {
  }

  /**
   * An IPv4-mapped CIDR such as ::ffff:10.0.0.0/104, or any at /96 or longer
   * whose masked network is still mapped, keeps its 128-bit prefix length
   * while its start shrinks to 4 bytes, so the shift count wraps and the
   * conversion crashes although ParseCIDR accepted the text.
   */
  lemma MappedCidrCrashes(v4: Address, prefixLen: nat)
    requires |v4| == IPv4Len && 96 <= prefixLen <= 128
    ensures RangeOf(Cidr(V4InV6Prefix + v4, prefixLen)) == Err(Panic)
  {
    var network := V4InV6Prefix + v4;
    assert network[..12] == V4InV6Prefix;
    assert RangeStart(network) == v4;
  }

  /** The value of a 4-byte address, as the dotted quad reads it. */
  lemma Value4(q: Address)
    requires |q| == IPv4Len
    ensures Value(q) == ((q[0] as int * 256 + q[1]) * 256 + q[2]) * 256 + q[3]
  {
    assert q[..3][..2] == q[..2] && q[..2][..1] == q[..1] && q[..1][..0] == [];
    assert Value(q) == Value(q[..3]) * 256 + q[3];
    assert Value(q[..3]) == Value(q[..2]) * 256 + q[2];
    assert Value(q[..2]) == Value(q[..1]) * 256 + q[1];
    assert Value(q[..1]) == q[0];
  }

  /** 192.168.0.0/24 ends at 192.168.1.0. */
  lemma ExampleV4Cidr()
    ensures RangeOf(Cidr([192, 168, 0, 0], 24)) == Ok(([192, 168, 0, 0], [192, 168, 1, 0]))
  {
    var start: Address := [192, 168, 0, 0];
    var end: Address := [192, 168, 1, 0];
    Value4(start);
    Value4(end);
    assert Pow2(8) == 256;
    IpRangeEndUnique(start, 24, end);
  }

  /** 10.0.0.0/24 ends at 10.0.1.0. */
  lemma ExampleV4CidrTen()
    ensures RangeOf(Cidr([10, 0, 0, 0], 24)) == Ok(([10, 0, 0, 0], [10, 0, 1, 0]))
  {
    var start: Address := [10, 0, 0, 0];
    var end: Address := [10, 0, 1, 0];
    Value4(start);
    Value4(end);
    assert Pow2(8) == 256;
    IpRangeEndUnique(start, 24, end);
  }

  /** The bare address 192.168.0.42 (parsed to its 16-byte form) becomes [192.168.0.42, 192.168.0.43). */
  lemma ExampleV4Bare()
    ensures RangeOf(Bare([0, 0, 0, 0, 0, 0, 0, 0, 0, 0, 255, 255, 192, 168, 0, 42]))
         == Ok(([192, 168, 0, 42], [192, 168, 0, 43]))
  {
    var ip: Address := [0, 0, 0, 0, 0, 0, 0, 0, 0, 0, 255, 255, 192, 168, 0, 42];
    var start: Address := [192, 168, 0, 42];
    var end: Address := [192, 168, 0, 43];
    assert ip == V4InV6Prefix + start;
    assert To4(ip) == start by {
      assert ip[..12] == V4InV6Prefix && ip[12..] == start;
    }
    assert RangeOf(Bare(ip)) == RangeFrom(start, 32);
    Value4(start);
    Value4(end);
    IpRangeEndUnique(start, 32, end);
  }

  /**
   * Raising the value of the low bytes by `d` raises the value of the whole
   * address by `d`: the high bytes stay where they are.
   */
  lemma RaiseLow(high: Address, low0: Address, low1: Address, d: nat)
    requires |low0| == |low1| && Value(low1) == Value(low0) + d
    ensures Value(high + low1) == Value(high + low0) + d
  {
    ValueAppend(high, low0);
    ValueAppend(high, low1);
  }

  /** Raising the byte above `low` by one adds 2^(8·|low|) to the address. */
  lemma RaiseAbove(top: Address, b: Byte, low: Address)
    requires b < 255
    ensures Value(top + ([b + 1] + low)) == Value(top + ([b] + low)) + Pow2(8 * |low|)
  {
    ValueAppend([b], low);
    ValueAppend([b + 1], low);
    RaiseLow(top, [b] + low, [b + 1] + low, Pow2(8 * |low|));
  }

  /**
   * A block of 2^(8·|low|) addresses that starts at top + [b] + low, with the
   * low bytes masked out, ends at top + [b + 1] + low.
   */
  lemma RangeEndRaised(top: Address, b: Byte, low: Address, maskedBits: nat)
    requires b < 255 && maskedBits + 8 * |low| == 8 * (|top| + 1 + |low|)
    ensures RangeEndDefined(top + ([b] + low), maskedBits)
    ensures IpRangeEnd(top + ([b] + low), maskedBits) == top + ([b + 1] + low)
  {
    RaiseAbove(top, b, low);
    IpRangeEndOf(top + ([b] + low), maskedBits, top + ([b + 1] + low));
  }

  /** The same block given as a CIDR whose network has no 4-byte form. */
  lemma CidrRaised(top: Address, b: Byte, low: Address, prefixLen: nat, network: Address, end: Address)
    requires b < 255 && prefixLen + 8 * |low| == 8 * (|top| + 1 + |low|)
    requires network == top + ([b] + low) && end == top + ([b + 1] + low) && To4(network) == []
    ensures RangeOf(Cidr(network, prefixLen)) == Ok((network, end))
  {
    RangeEndRaised(top, b, low, prefixLen);
  }

  /** fe80::ab12:abcd:1234:0 with 112 masked bits ends at fe80::ab12:abcd:1235:0. */
  lemma ExampleV6RangeEnd(start: Address, end: Address)
    requires start == [0xfe, 0x80, 0, 0, 0, 0, 0, 0, 0xab, 0x12, 0xab, 0xcd, 0x12, 0x34, 0, 0]
    requires end == [0xfe, 0x80, 0, 0, 0, 0, 0, 0, 0xab, 0x12, 0xab, 0xcd, 0x12, 0x35, 0, 0]
    ensures RangeEndDefined(start, 112) && IpRangeEnd(start, 112) == end
  {
    var top: Address := [0xfe, 0x80, 0, 0, 0, 0, 0, 0, 0xab, 0x12, 0xab, 0xcd, 0x12];
    var zero: Address := [0, 0];
    assert start == top + ([0x34] + zero) && end == top + ([0x35] + zero);
    RangeEndRaised(top, 0x34, zero, 112);
  }

  /** fe80::ab12:abcd:1234:42/64, whose masked network is fe80::, becomes [fe80::, fe80:0:0:1::). */
  lemma ExampleV6Cidr(network: Address, end: Address)
    requires network == [0xfe, 0x80, 0, 0, 0, 0, 0, 0, 0, 0, 0, 0, 0, 0, 0, 0]
    requires end == [0xfe, 0x80, 0, 0, 0, 0, 0, 1, 0, 0, 0, 0, 0, 0, 0, 0]
    ensures RangeOf(Cidr(network, 64)) == Ok((network, end))
  {
    var top: Address := [0xfe, 0x80, 0, 0, 0, 0, 0];
    var zero: Address := [0, 0, 0, 0, 0, 0, 0, 0];
    assert network == top + ([0] + zero) && end == top + ([1] + zero);
    assert To4(network) == [] by {
      assert network[0] != V4InV6Prefix[0];
    }
    CidrRaised(top, 0, zero, 64, network, end);
  }
}
