/**
 * The three methods of Go's net.IP that the plugin relies on: To4, To16 and
 * String. net.IP is a raw byte slice; a 16-byte slice whose first 12 bytes
 * are the IPv4-mapped prefix ::ffff:0:0/96 (section 2.5.5.2 of RFC 4291)
 * denotes an IPv4 address.
 */
module NetIP {
  import opened Bytes

  /** The 12-byte prefix of an IPv4-mapped IPv6 address. */
  const V4InV6Prefix: seq<Byte> := [0, 0, 0, 0, 0, 0, 0, 0, 0, 0, 255, 255]

  /** Is `ip` the 16-byte IPv4-mapped form of an IPv4 address? */
  predicate IsV4Mapped(ip: Address)
  {
    |ip| == IPv6Len && ip[..12] == V4InV6Prefix
  }

  /** net.IP.To4: the 4-byte form, or nil (here []) when `ip` is not IPv4. */
  function To4(ip: Address): (r: Address)
    ensures r == [] || |r| == IPv4Len
    ensures |ip| == IPv4Len ==> r == ip
    ensures |r| == IPv4Len && |ip| != IPv4Len ==> IsV4Mapped(ip) && ip == V4InV6Prefix + r
    ensures r == [] <==> |ip| != IPv4Len && !IsV4Mapped(ip)
  {
    if |ip| == IPv4Len then ip
    else if IsV4Mapped(ip) then
      assert ip == ip[..12] + ip[12..];
      ip[12..]
    else []
  }

  /** net.IP.To16: the 16-byte form, or nil (here []) for any other length. */
  function To16(ip: Address): (r: Address)
    ensures r == [] || |r| == IPv6Len
    ensures |ip| == IPv4Len ==> IsV4Mapped(r) && To4(r) == ip
    ensures |ip| == IPv6Len ==> r == ip
    ensures r == [] <==> |ip| != IPv4Len && |ip| != IPv6Len
  {
    if |ip| == IPv4Len then
      var r := V4InV6Prefix + ip;
      assert r[..12] == V4InV6Prefix && r[12..] == ip;
      r
    else if |ip| == IPv6Len then ip
    else []
  }

  /**
   * The text net.IP.String prints, up to the exact characters: "<nil>" for an
   * empty slice, '?' and hex digits for a slice of a length other than 4 or
   * 16, dotted-quad for anything To4 accepts, and the RFC 5952 colon form for
   * every other 16-byte address. The renderings are distinct from one another
   * within each kind, so the only two slices that print alike are an IPv4
   * address and its IPv4-mapped 16-byte form.
   */
  datatype IpText = NilText | Hex(raw: seq<Byte>) | Dotted(quad: seq<Byte>) | Colon(groups: seq<Byte>)

  function String(ip: Address): (t: IpText)
    ensures t.Dotted? <==> To4(ip) != []
    ensures t.Dotted? ==> t.quad == To4(ip)
    ensures t.Colon? ==> |ip| == IPv6Len && t.groups == ip
  {
    if |ip| == 0 then NilText
    else if |ip| != IPv4Len && |ip| != IPv6Len then Hex(ip)
    else if To4(ip) != [] then Dotted(To4(ip))
    else Colon(ip)
  }

  /** Addresses of one width print differently unless they are equal. */
  lemma StringInjectiveOnWidth(a: Address, b: Address)
    requires |a| == |b| && String(a) == String(b)
    ensures a == b
  {
    if String(a).Dotted? && |a| == IPv6Len {
      assert a == V4InV6Prefix + To4(a) && b == V4InV6Prefix + To4(b);
    }
  }

  /**
   * The one collision: an IPv4 address and its IPv4-mapped form print alike,
   * so they share a key in any map keyed by String.
   */
  lemma StringCollision(a: Address)
    requires |a| == IPv4Len
    ensures To16(a) != a && String(To16(a)) == String(a)
  {
  }

  /** When two addresses print alike, they are equal or one is the other's mapped form. */
  lemma StringCollisionsAreMapped(a: Address, b: Address)
    requires String(a) == String(b) && a != b
    ensures To4(a) == To4(b) && To4(a) != []
    ensures (|a| == IPv4Len && b == To16(a)) || (|b| == IPv4Len && a == To16(b))
  {
    if |a| == |b| {
      StringInjectiveOnWidth(a, b);
    }
  }
}
