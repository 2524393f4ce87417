/**
 * The firewall layout prepareNFTables installs: the table "coredns" of the
 * inet family, one filter chain with policy drop, the two dynamic allow sets,
 * the constant interval sets of permanently allowed ranges and the ordered
 * rules of the chain. Anonymous sets (the ICMPv6 types and the permanent
 * ranges) are carried inside the rule that looks them up.
 */
module Topology {
  import opened Bytes
  import opened Kernel
  import opened ConfigParser

  const OutputChainName: string := "corednsoutput"
  const ForwardChainName: string := "corednsforward"
  const V4SetName: string := "corednsipv4allowlist"
  const V6SetName: string := "corednsipv6allowlist"

  /** The mode string that selects the forward hook, compared literally. */
  const GatewayMode: string := "gateway"

  const V4AllowSet: SetDesc := SetDesc(V4SetName, IPv4)
  const V6AllowSet: SetDesc := SetDesc(V6SetName, IPv6)

  /** Output interface index of the loopback device. */
  const LoopbackIfIndex: nat := 1
  /** IANA protocol number of ICMPv6. */
  const IcmpV6Proto: nat := 58
  /** Router solicitation and advertisement, neighbour solicitation and advertisement (section 4 of RFC 4861). */
  const NeighbourDiscoveryTypes: seq<nat> := [133, 134, 135, 136]
  /** NFPROTO_IPV4 and NFPROTO_IPV6. */
  const NfprotoIPv4: nat := 2
  const NfprotoIPv6: nat := 10
  /** Offset of the destination address in the IPv4 header (section 3.1 of RFC 791) and in the IPv6 header (section 3 of RFC 8200). */
  const IPv4DestinationOffset: nat := 16
  const IPv6DestinationOffset: nat := 24
  /** Reject with an icmpx message of code admin-prohibited. */
  const RejectIcmpx: nat := 2
  const AdminProhibited: nat := 3

  /** The chain: "corednsoutput" on the output hook, "corednsforward" on the forward hook when the mode is "gateway". */
  function ChainFor(mode: string): (c: Chain)
    ensures c.hook == Forward <==> mode == GatewayMode
    ensures c.hook == Forward ==> c.name == ForwardChainName
    ensures c.hook == Output ==> c.name == OutputChainName
  {
    if mode == GatewayMode then Chain(ForwardChainName, Forward) else Chain(OutputChainName, Output)
  }

  /**
   * The modes the validator admits are "nft-local" and "nft-gateway", and
   * neither is "gateway": every configuration that passes validation gets
   * the output chain.
   */
  lemma ValidatedModesUseOutput(config: ParsedConfig)
    requires ValidateConfig(config).None?
    ensures ChainFor(config.mode) == Chain(OutputChainName, Output)
  {
    assert ModeNftGateway != GatewayMode by {
      assert |ModeNftGateway| != |GatewayMode|;
    }
    assert ModeNftLocal != GatewayMode by {
      assert ModeNftLocal[0] != GatewayMode[0];
    }
  }

  /** The list a configured (start, end) pair goes to: IPv4 when its start has 4 bytes, IPv6 otherwise. */
  function RangeFamily(start: Address): Family
  {
    if |start| == IPv4Len then IPv4 else IPv6
  }

  /** The two elements of one configured range: its start, then its end marked as an interval end. */
  function RangeElements(start: Address, end: Address): seq<SetElement>
  {
    [SetElement(start, false), SetElement(end, true)]
  }

  /**
   * A family's permanent element list: an all-zero interval end of its
   * width, then the start and end of every configured pair that goes to
   * that family, in configuration order.
   */
  function PermanentElements(allowedIPs: seq<Address>, f: Family): seq<SetElement>
    requires |allowedIPs| % 2 == 0
    decreases |allowedIPs|
  {
    if allowedIPs == [] then [SetElement(Zeros(Width(f)), true)]
    else
      var n := |allowedIPs| - 2;
      PermanentElements(allowedIPs[..n], f)
        + if RangeFamily(allowedIPs[n]) == f then RangeElements(allowedIPs[n], allowedIPs[n + 1]) else []
  }

  /** Extending the configuration by one pair extends the list of that pair's family by it, and no other list. */
  lemma PermanentElementsStep(allowedIPs: seq<Address>, i: nat, f: Family)
    requires i % 2 == 0 && i + 2 <= |allowedIPs|
    ensures PermanentElements(allowedIPs[..i + 2], f)
      == PermanentElements(allowedIPs[..i], f)
         + if RangeFamily(allowedIPs[i]) == f then RangeElements(allowedIPs[i], allowedIPs[i + 1]) else []
  {
    var next := allowedIPs[..i + 2];
    assert next[..i] == allowedIPs[..i];
  }

  /** The append loop of prepareNFTables that builds the two lists. */
  method BuildPermanentElements(allowedIPs: seq<Address>)
    returns (v4: seq<SetElement>, v6: seq<SetElement>)
    requires |allowedIPs| % 2 == 0
    ensures v4 == PermanentElements(allowedIPs, IPv4)
    ensures v6 == PermanentElements(allowedIPs, IPv6)
  {
    v4 := [SetElement(Zeros(IPv4Len), true)];
    v6 := [SetElement(Zeros(IPv6Len), true)];
    var i := 0;
    while i < |allowedIPs|
      invariant 0 <= i <= |allowedIPs| && i % 2 == 0
      invariant v4 == PermanentElements(allowedIPs[..i], IPv4)
      invariant v6 == PermanentElements(allowedIPs[..i], IPv6)
    {
      var key := allowedIPs[i];
      var keyEnd := allowedIPs[i + 1];
      PermanentElementsStep(allowedIPs, i, IPv4);
      PermanentElementsStep(allowedIPs, i, IPv6);
      if |key| == IPv4Len {
        v4 := v4 + [SetElement(key, false), SetElement(keyEnd, true)];
      } else {
        v6 := v6 + [SetElement(key, false), SetElement(keyEnd, true)];
      }
      i := i + 2;
    }
    assert allowedIPs[..i] == allowedIPs;
  }

  /** Each list holds an odd number of elements: the opening element and whole pairs. */
  lemma {:induction false} PermanentElementsOdd(allowedIPs: seq<Address>, f: Family)
    requires |allowedIPs| % 2 == 0
    ensures |PermanentElements(allowedIPs, f)| % 2 == 1
    decreases |allowedIPs|
  {
    if allowedIPs != [] {
      var n := |allowedIPs| - 2;
      PermanentElementsOdd(allowedIPs[..n], f);
      var m := |PermanentElements(allowedIPs[..n], f)|;
      assert |PermanentElements(allowedIPs, f)| == m || |PermanentElements(allowedIPs, f)| == m + 2;
    }
  }

  /** Each list opens with the all-zero interval end of its width. */
  lemma {:induction false} PermanentElementsOpening(allowedIPs: seq<Address>, f: Family)
    requires |allowedIPs| % 2 == 0
    ensures |PermanentElements(allowedIPs, f)| > 0
    ensures PermanentElements(allowedIPs, f)[0] == SetElement(Zeros(Width(f)), true)
    decreases |allowedIPs|
  {
    if allowedIPs != [] {
      var n := |allowedIPs| - 2;
      var prefix := PermanentElements(allowedIPs[..n], f);
      var tail := if RangeFamily(allowedIPs[n]) == f then RangeElements(allowedIPs[n], allowedIPs[n + 1]) else [];
      PermanentElementsOpening(allowedIPs[..n], f);
      assert PermanentElements(allowedIPs, f) == prefix + tail;
      assert (prefix + tail)[0] == prefix[0];
    }
  }

  /** Together the lists hold every configured address once, besides their two opening elements. */
  lemma {:induction false} PermanentElementsCount(allowedIPs: seq<Address>)
    requires |allowedIPs| % 2 == 0
    ensures |PermanentElements(allowedIPs, IPv4)| + |PermanentElements(allowedIPs, IPv6)| == |allowedIPs| + 2
    decreases |allowedIPs|
  {
    if allowedIPs != [] {
      var n := |allowedIPs| - 2;
      PermanentElementsCount(allowedIPs[..n]);
    }
  }

  /**
   * After the opening element a list alternates start, end, start, end,
   * and every start in it belongs to the list's family.
   */
  lemma {:induction false} PermanentElementsAlternate(allowedIPs: seq<Address>, f: Family)
    requires |allowedIPs| % 2 == 0
    ensures var v := PermanentElements(allowedIPs, f);
      && (forall k :: 0 <= k < |v| ==> (v[k].intervalEnd <==> k % 2 == 0))
      && (forall k :: 0 <= k < |v| && k % 2 == 1 ==> RangeFamily(v[k].key) == f)
    decreases |allowedIPs|
  {
    if allowedIPs != [] {
      var n := |allowedIPs| - 2;
      var prefix := allowedIPs[..n];
      PermanentElementsAlternate(prefix, f);
      PermanentElementsOdd(prefix, f);
      if RangeFamily(allowedIPs[n]) == f {
        AlternationExtends(PermanentElements(prefix, f), RangeElements(allowedIPs[n], allowedIPs[n + 1]), f);
      }
    }
  }

  /** A (start, end) pair of family `f` appended to an odd-length alternating list of starts of family `f` keeps it so. */
  lemma AlternationExtends(elements: seq<SetElement>, pair: seq<SetElement>, f: Family)
    requires |elements| % 2 == 1 && |pair| == 2 && !pair[0].intervalEnd && pair[1].intervalEnd
    requires RangeFamily(pair[0].key) == f
    requires forall k :: 0 <= k < |elements| ==> (elements[k].intervalEnd <==> k % 2 == 0)
    requires forall k :: 0 <= k < |elements| && k % 2 == 1 ==> RangeFamily(elements[k].key) == f
    ensures forall k :: 0 <= k < |elements + pair| ==> ((elements + pair)[k].intervalEnd <==> k % 2 == 0)
    ensures forall k :: 0 <= k < |elements + pair| && k % 2 == 1 ==> RangeFamily((elements + pair)[k].key) == f
  {
    var m := |elements|;
    assert m % 2 == 1 && (m + 1) % 2 == 0;
  }

  /** A list has more than its opening element exactly when some pair of its family is configured. */
  lemma {:induction false} PermanentElementsPresent(allowedIPs: seq<Address>, f: Family)
    requires |allowedIPs| % 2 == 0
    ensures |PermanentElements(allowedIPs, f)| > 1
      <==> exists i :: 0 <= i < |allowedIPs| && i % 2 == 0 && RangeFamily(allowedIPs[i]) == f
    decreases |allowedIPs|
  {
    if allowedIPs != [] {
      var n := |allowedIPs| - 2;
      var prefix := allowedIPs[..n];
      PermanentElementsPresent(prefix, f);
      PermanentElementsOpening(prefix, f);
      if RangeFamily(allowedIPs[n]) == f {
        assert |PermanentElements(allowedIPs, f)| == |PermanentElements(prefix, f)| + 2;
        assert n % 2 == 0;
      } else {
        assert PermanentElements(allowedIPs, f) == PermanentElements(prefix, f);
        if i :| 0 <= i < |allowedIPs| && i % 2 == 0 && RangeFamily(allowedIPs[i]) == f {
          assert i < n && prefix[i] == allowedIPs[i];
        }
        if i :| 0 <= i < n && i % 2 == 0 && RangeFamily(prefix[i]) == f {
          assert prefix[i] == allowedIPs[i];
        }
      }
    }
  }

  /** The rule that accepts traffic to a destination of one family found in `lookup`. */
  function DestinationRule(f: Family, lookup: SetRef): Rule
  {
    match f
    case IPv4 => AcceptDestination(NfprotoIPv4, IPv4DestinationOffset, IPv4Len, lookup)
    case IPv6 => AcceptDestination(NfprotoIPv6, IPv6DestinationOffset, IPv6Len, lookup)
  }

  /** The chain's rules in order; a permanent rule exists only when its list holds a range. */
  function RuleOrder(v4Elements: seq<SetElement>, v6Elements: seq<SetElement>): seq<Rule>
  {
    [ DropCtInvalid,
      AcceptCtEstablishedRelated,
      AcceptOutputInterface(LoopbackIfIndex),
      AcceptIcmpv6Types(IcmpV6Proto, NeighbourDiscoveryTypes) ]
    + (if |v4Elements| > 1 then [DestinationRule(IPv4, Anonymous(v4Elements))] else [])
    + (if |v6Elements| > 1 then [DestinationRule(IPv6, Anonymous(v6Elements))] else [])
    + [ DestinationRule(IPv4, Named(V4SetName)),
        DestinationRule(IPv6, Named(V6SetName)),
        Reject(RejectIcmpx, AdminProhibited) ]
  }

  /**
   * The chain's layout: the connection-tracking rules first, the reject
   * last and nowhere else, and every destination rule loading the 4 bytes
   * at offset 16 for IPv4 or the 16 bytes at offset 24 for IPv6.
   */
  lemma RuleOrderShape(v4Elements: seq<SetElement>, v6Elements: seq<SetElement>)
    ensures var rules := RuleOrder(v4Elements, v6Elements);
      && |rules| == 7 + (if |v4Elements| > 1 then 1 else 0) + (if |v6Elements| > 1 then 1 else 0)
      && rules[0] == DropCtInvalid
      && rules[1] == AcceptCtEstablishedRelated
      && rules[|rules| - 1] == Reject(RejectIcmpx, AdminProhibited)
      && (forall k :: 0 <= k < |rules| - 1 ==> !rules[k].Reject?)
      && (forall k :: 0 <= k < |rules| && rules[k].AcceptDestination? ==>
            || (rules[k].nfproto == NfprotoIPv4 && rules[k].offset == IPv4DestinationOffset && rules[k].length == IPv4Len)
            || (rules[k].nfproto == NfprotoIPv6 && rules[k].offset == IPv6DestinationOffset && rules[k].length == IPv6Len))
  {
  }

  /** One AddRule message per rule, in order. */
  function AddRules(rules: seq<Rule>): (ops: seq<Op>)
    ensures |ops| == |rules|
    ensures forall i :: 0 <= i < |rules| ==> ops[i] == AddRule(rules[i])
  {
    seq(|rules|, i requires 0 <= i < |rules| => AddRule(rules[i]))
  }

  /** The messages prepareNFTables queues before its Flush. */
  function TopologyOps(config: ParsedConfig): seq<Op>
    requires |config.allowedIPs| % 2 == 0
  {
    var v4, v6 := PermanentElements(config.allowedIPs, IPv4), PermanentElements(config.allowedIPs, IPv6);
    [AddTable, FlushTable, AddChain(ChainFor(config.mode)), AddSet(V4AllowSet), AddSet(V6AllowSet)]
    + AddRules(RuleOrder(v4, v6))
  }

  lemma {:induction false} ApplyAddRules(rs: Ruleset, rules: seq<Rule>)
    ensures Apply(rs, AddRules(rules)) == rs.(rules := rs.rules + rules)
    decreases |rules|
  {
    if rules == [] {
      assert rs.rules + rules == rs.rules;
    } else {
      var n := |rules| - 1;
      assert AddRules(rules)[..n] == AddRules(rules[..n]);
      ApplyAddRules(rs, rules[..n]);
      assert rs.rules + rules[..n] + [rules[n]] == rs.rules + rules;
    }
  }

  /** The five opening messages create the chain and empty the table's rules, leaving both sets alone. */
  lemma ApplyOpening(rs: Ruleset, chain: Chain)
    ensures Apply(rs, [AddTable, FlushTable, AddChain(chain), AddSet(V4AllowSet), AddSet(V6AllowSet)])
      == rs.(rules := [], chains := rs.chains + {chain})
  {
    var h1 := [AddTable];
    var h2 := h1 + [FlushTable];
    var h3 := h2 + [AddChain(chain)];
    var h4 := h3 + [AddSet(V4AllowSet)];
    var head := h4 + [AddSet(V6AllowSet)];
    assert h1[..0] == [] && h2[..1] == h1 && h3[..2] == h2 && h4[..3] == h3 && head[..4] == h4;
    assert Apply(rs, h2) == rs.(rules := []);
    assert Apply(rs, h3) == rs.(rules := [], chains := rs.chains + {chain});
    assert Apply(rs, head) == Apply(rs, h3);
    assert head == [AddTable, FlushTable, AddChain(chain), AddSet(V4AllowSet), AddSet(V6AllowSet)];
  }

  /**
   * Committing the layout leaves the chain with exactly the rule order, adds
   * the chain, and keeps both dynamic sets as they were: a restart does not
   * lose the addresses already allowed.
   */
  lemma TopologyEffect(rs: Ruleset, config: ParsedConfig)
    requires |config.allowedIPs| % 2 == 0
    ensures var v4, v6 := PermanentElements(config.allowedIPs, IPv4), PermanentElements(config.allowedIPs, IPv6);
      Apply(rs, TopologyOps(config))
        == Ruleset(rs.chains + {ChainFor(config.mode)}, RuleOrder(v4, v6), rs.v4, rs.v6)
  {
    var v4, v6 := PermanentElements(config.allowedIPs, IPv4), PermanentElements(config.allowedIPs, IPv6);
    var head := [AddTable, FlushTable, AddChain(ChainFor(config.mode)), AddSet(V4AllowSet), AddSet(V6AllowSet)];
    ApplyAppend(rs, head, AddRules(RuleOrder(v4, v6)));
    ApplyOpening(rs, ChainFor(config.mode));
    var mid := rs.(rules := [], chains := rs.chains + {ChainFor(config.mode)});
    ApplyAddRules(mid, RuleOrder(v4, v6));
  }

  /** The layout keeps both dynamic sets: a restart does not lose the addresses already allowed. */
  lemma TopologyKeepsSets(rs: Ruleset, config: ParsedConfig)
    requires |config.allowedIPs| % 2 == 0
    ensures Apply(rs, TopologyOps(config)).v4 == rs.v4
    ensures Apply(rs, TopologyOps(config)).v6 == rs.v6
  {
    TopologyEffect(rs, config);
  }

  /** Preparing the tables twice leaves the kernel as preparing them once. */
  lemma TopologyIdempotent(rs: Ruleset, config: ParsedConfig)
    requires |config.allowedIPs| % 2 == 0
    ensures Apply(Apply(rs, TopologyOps(config)), TopologyOps(config)) == Apply(rs, TopologyOps(config))
  {
    TopologyEffect(rs, config);
    TopologyEffect(Apply(rs, TopologyOps(config)), config);
  }

  /** The layout never adds or removes keys of the dynamic sets. */
  lemma TopologyOpsWellTyped(config: ParsedConfig)
    requires |config.allowedIPs| % 2 == 0
    ensures forall i :: 0 <= i < |TopologyOps(config)| ==> OpWellTyped(TopologyOps(config)[i])
  {
  }
}
