/**
 * The part of the kernel's nftables state that the synchroniser writes and
 * reads, seen through a netlink connection (google/nftables' Conn): calls
 * such as AddRule or SetAddElements only queue a message, and Flush commits
 * the whole queue as one atomic transaction.
 *
 * The ruleset is reduced to what the plugin's table holds: its chains, the
 * rules of the plugin's chain as abstract tags, and the two dynamic allow
 * sets, one per address family. Expression encodings and netlink messages
 * are not modelled.
 */
module Kernel {
  import opened Wrappers
  import opened Bytes

  datatype Family = IPv4 | IPv6

  /** The width of the addresses a family's set holds (nftables' ipv4_addr and ipv6_addr key types). */
  function Width(f: Family): nat
  {
    match f
    case IPv4 => IPv4Len
    case IPv6 => IPv6Len
  }

  /** The family an address belongs to: by its byte length alone. */
  function FamilyOf(ip: Address): (f: Option<Family>)
    ensures f.Some? <==> |ip| == IPv4Len || |ip| == IPv6Len
    ensures f.Some? ==> Width(f.value) == |ip|
  {
    if |ip| == IPv4Len then Some(IPv4)
    else if |ip| == IPv6Len then Some(IPv6)
    else None
  }

  /** Filter chains of the plugin: on the output hook, or on the forward hook. Both have policy drop. */
  datatype Hook = Output | Forward
  datatype Chain = Chain(name: string, hook: Hook)

  /** An element of an interval set: a boundary key, with `intervalEnd` marking an exclusive end. */
  datatype SetElement = SetElement(key: Address, intervalEnd: bool)

  /** The set a lookup refers to: an anonymous constant set given inline, or a named set. */
  datatype SetRef = Anonymous(elements: seq<SetElement>) | Named(name: string)

  /** A named, dynamic set of destination addresses of one family. */
  datatype SetDesc = SetDesc(name: string, family: Family)

  /**
   * The rules of the plugin's chain, one tag per rule kind. The numbers are
   * the ones the rules match on: the loopback interface index, the ICMPv6
   * types, the NFPROTO family numbers and the network-header offset and
   * length of the destination address, the reject type and code.
   */
  datatype Rule =
    | DropCtInvalid
    | AcceptCtEstablishedRelated
    | AcceptOutputInterface(ifIndex: nat)
    | AcceptIcmpv6Types(l4proto: nat, types: seq<nat>)
    | AcceptDestination(nfproto: nat, offset: nat, length: nat, lookup: SetRef)
    | Reject(rejectType: nat, code: nat)

  /** One queued netlink message. */
  datatype Op =
    | AddTable
    | FlushTable
    | AddChain(chain: Chain)
    | AddSet(desc: SetDesc)
    | AddRule(rule: Rule)
    | SetAddElements(target: SetDesc, keys: seq<Address>)
    | SetDeleteElements(target: SetDesc, keys: seq<Address>)

  /** The plugin's table in the kernel. */
  datatype Ruleset = Ruleset(chains: set<Chain>, rules: seq<Rule>, v4: set<Address>, v6: set<Address>)

  function Members(rs: Ruleset, f: Family): set<Address>
  {
    match f
    case IPv4 => rs.v4
    case IPv6 => rs.v6
  }

  /** Is `ip` in the dynamic set of its own family? */
  predicate Admitted(rs: Ruleset, ip: Address)
  {
    FamilyOf(ip).Some? && ip in Members(rs, FamilyOf(ip).value)
  }

  function WithMembers(rs: Ruleset, f: Family, s: set<Address>): (r: Ruleset)
    ensures Members(r, f) == s
    ensures forall g :: g != f ==> Members(r, g) == Members(rs, g)
    ensures r.chains == rs.chains && r.rules == rs.rules
  {
    match f
    case IPv4 => rs.(v4 := s)
    case IPv6 => rs.(v6 := s)
  }

  /**
   * The effect of one message. Creating the table or a named set that exists
   * keeps it and its elements; flushing the table removes its rules and
   * nothing else (google/nftables' FlushTable).
   */
  function Step(rs: Ruleset, op: Op): Ruleset
  {
    match op
    case AddTable => rs
    case FlushTable => rs.(rules := [])
    case AddChain(c) => rs.(chains := rs.chains + {c})
    case AddSet(_) => rs
    case AddRule(r) => rs.(rules := rs.rules + [r])
    case SetAddElements(target, keys) =>
      WithMembers(rs, target.family, Members(rs, target.family) + set k | k in keys)
    case SetDeleteElements(target, keys) =>
      WithMembers(rs, target.family, Members(rs, target.family) - set k | k in keys)
  }

  /** The ruleset after committing `ops` in order. */
  function Apply(rs: Ruleset, ops: seq<Op>): Ruleset
    decreases |ops|
  {
    if ops == [] then rs
    else Step(Apply(rs, ops[..|ops| - 1]), ops[|ops| - 1])
  }

  /** Committing two batches one after the other is committing their concatenation. */
  lemma {:induction false} ApplyAppend(rs: Ruleset, a: seq<Op>, b: seq<Op>)
    ensures Apply(rs, a + b) == Apply(Apply(rs, a), b)
    decreases |b|
  {
    if b == [] {
      assert a + b == a;
    } else {
      var n := |b| - 1;
      assert (a + b)[..|a + b| - 1] == a + b[..n];
      ApplyAppend(rs, a, b[..n]);
    }
  }

  /** Does the message keep every key of a dynamic set at its family's width? */
  predicate OpWellTyped(op: Op)
  {
    (op.SetAddElements? || op.SetDeleteElements?) ==>
      forall i :: 0 <= i < |op.keys| ==> |op.keys[i]| == Width(op.target.family)
  }

  predicate WellTyped(rs: Ruleset)
  {
    forall f: Family, ip :: ip in Members(rs, f) ==> |ip| == Width(f)
  }

  /** Well-typed messages keep the sets well-typed: the kernel's key types are respected. */
  lemma {:induction false} ApplyWellTyped(rs: Ruleset, ops: seq<Op>)
    requires WellTyped(rs)
    requires forall i :: 0 <= i < |ops| ==> OpWellTyped(ops[i])
    ensures WellTyped(Apply(rs, ops))
    decreases |ops|
  {
    if ops != [] {
      var n := |ops| - 1;
      ApplyWellTyped(rs, ops[..n]);
      var before := Apply(rs, ops[..n]);
      var op := ops[n];
      if op.SetAddElements? {
        forall f: Family, ip | ip in Members(Apply(rs, ops), f) ensures |ip| == Width(f) {
          if ip !in Members(before, f) {
            var i :| 0 <= i < |op.keys| && op.keys[i] == ip;
          }
        }
      }
    }
  }

  /** Adding keys only adds: what was admitted stays admitted. */
  lemma StepAddKeeps(rs: Ruleset, target: SetDesc, keys: seq<Address>, ip: Address)
    requires Admitted(rs, ip)
    ensures Admitted(Step(rs, SetAddElements(target, keys)), ip)
  {
  }

  /** A key added to the set of its own family is admitted afterwards. */
  lemma StepAddAdmits(rs: Ruleset, target: SetDesc, ip: Address)
    requires FamilyOf(ip) == Some(target.family)
    ensures Admitted(Step(rs, SetAddElements(target, [ip])), ip)
  {
  }

  /** Deleting keys keeps every other key. */
  lemma StepDeleteKeeps(rs: Ruleset, target: SetDesc, keys: seq<Address>, ip: Address)
    requires Admitted(rs, ip) && ip !in keys
    ensures Admitted(Step(rs, SetDeleteElements(target, keys)), ip)
  {
  }

  /** A key deleted from the set of its own family is no longer admitted. */
  lemma StepDeleteRevokes(rs: Ruleset, target: SetDesc, keys: seq<Address>, ip: Address)
    requires FamilyOf(ip) == Some(target.family) && ip in keys
    ensures !Admitted(Step(rs, SetDeleteElements(target, keys)), ip)
  {
  }

  /** Changing the set of the other family leaves an address as admitted as it was. */
  lemma StepOtherFamily(rs: Ruleset, op: Op, ip: Address)
    requires op.SetAddElements? || op.SetDeleteElements?
    requires FamilyOf(ip).Some? && FamilyOf(ip).value != op.target.family
    ensures Admitted(Step(rs, op), ip) <==> Admitted(rs, ip)
  {
  }

  datatype KernelError = NetlinkError

  /** The kernel's answer to a commit; on a rejection, whether the queue stays on the connection. */
  datatype Verdict = Accepted | Rejected(queueKept: bool)

  /** Do all elements of `s` differ? */
  predicate Distinct<T(==)>(s: seq<T>)
  {
    forall i, j :: 0 <= i < j < |s| ==> s[i] != s[j]
  }

  /** A netlink connection: the kernel's ruleset and the messages queued on the connection. */
  class Conn {
    var ruleset: Ruleset
    var pending: seq<Op>

    ghost predicate Valid()
      reads this
    {
      WellTyped(ruleset) && forall i :: 0 <= i < |pending| ==> OpWellTyped(pending[i])
    }

    /** nftables.New: a connection to a kernel that holds `current`, nothing queued yet. */
    constructor (current: Ruleset)
      requires WellTyped(current)
      ensures Valid() && ruleset == current && pending == []
    {
      ruleset := current;
      pending := [];
    }

    /** AddTable, FlushTable, AddChain, AddSet, AddRule, SetAddElements, SetDeleteElements: queue one message. */
    method Queue(op: Op)
      requires Valid() && OpWellTyped(op)
      modifies this
      ensures Valid()
      ensures ruleset == old(ruleset) && pending == old(pending) + [op]
    {
      pending := pending + [op];
    }

    /**
     * Flush: commit the queue atomically. Whether the kernel accepts the
     * transaction is up to the kernel, given here as `verdict`. A rejected
     * transaction changes nothing in the kernel; whether the library then
     * keeps or drops the queue is part of the verdict.
     */
    method Flush(verdict: Verdict) returns (err: Option<KernelError>)
      requires Valid()
      modifies this
      ensures Valid()
      ensures err.None? <==> verdict.Accepted?
      ensures ruleset == (if verdict.Accepted? then Apply(old(ruleset), old(pending)) else old(ruleset))
      ensures pending == (if verdict == Rejected(true) then old(pending) else [])
    {
      if verdict.Accepted? {
        ApplyWellTyped(ruleset, pending);
        ruleset := Apply(ruleset, pending);
        pending := [];
        err := None;
      } else {
        if !verdict.queueKept {
          pending := [];
        }
        err := Some(NetlinkError);
      }
    }

    /**
     * GetSetElements: the elements of one family's dynamic set, each once, in
     * an order the kernel chooses. `readOk` says whether the read succeeds.
     */
    method GetSetElements(target: SetDesc, readOk: bool) returns (r: Result<seq<Address>, KernelError>)
      ensures r.Ok? <==> readOk
      ensures r.Ok? ==> Distinct(r.value) && forall ip :: ip in r.value <==> ip in Members(ruleset, target.family)
    {
      if !readOk {
        return Err(NetlinkError);
      }
      var f := target.family;
      var rest := Members(ruleset, f);
      var out: seq<Address> := [];
      while rest != {}
        invariant rest <= Members(ruleset, f)
        invariant Distinct(out)
        invariant forall ip :: ip in out ==> ip in Members(ruleset, f) && ip !in rest
        invariant forall ip :: ip in Members(ruleset, f) ==> ip in rest || ip in out
        decreases |rest|
      {
        var ip :| ip in rest;
        out := out + [ip];
        rest := rest - {ip};
      }
      return Ok(out);
    }
  }
}
