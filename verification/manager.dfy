/**
 * NFTablesManager of nftablesmanager.go: the in-memory allow list and its
 * synchronisation with the kernel's two dynamic allow sets.
 *
 * The goroutine's `select` becomes two methods that run one at a time:
 * OnInsert for an entry received from the sync channel and OnTick for a
 * tick of the garbage-collection ticker. Wall-clock time is a parameter
 * `now` in nanoseconds, and whether the kernel accepts a commit or a read is
 * a boolean parameter.
 */
module AllowListManager {
  import opened Wrappers
  import opened Bytes
  import opened NetIP
  import opened Kernel
  import opened ConfigParser
  import opened Topology

  const NanosPerSecond: int := 1_000_000_000
  /** Seconds an address stays allowed beyond its record's TTL. */
  const GraceSeconds: Uint32 := 30
  /** Seconds a recovered address stays allowed: ten GC periods plus the grace. */
  const RecoverySeconds: nat := 330
  const Uint32Modulus: nat := 0x1_0000_0000

  /** allowRoute: an address and the instant (in nanoseconds) until which it is allowed. */
  datatype AllowRoute = AllowRoute(ipAddress: Address, validUntil: int)

  /** Go's uint32 addition: the sum wraps modulo 2^32. */
  function AddUint32(a: Uint32, b: Uint32): Uint32
  {
    (a + b) % Uint32Modulus
  }

  /** The expiry AddRoute stamps: `now` plus ttl+30 seconds, with ttl+30 taken in uint32. */
  function ExpiryOf(now: int, ttl: Uint32): int
  {
    now + AddUint32(ttl, GraceSeconds) * NanosPerSecond
  }

  /**
   * Below 2^32 - 30 the expiry is ttl+30 seconds ahead; from there on the
   * uint32 sum wraps and the address expires less than 30 seconds ahead.
   * It never lies in the past.
   */
  lemma ExpiryOfCases(now: int, ttl: Uint32)
    ensures ExpiryOf(now, ttl) >= now
    ensures ttl < Uint32Modulus - GraceSeconds ==>
      ExpiryOf(now, ttl) == now + (ttl + GraceSeconds) * NanosPerSecond
    ensures ttl >= Uint32Modulus - GraceSeconds ==>
      && ExpiryOf(now, ttl) == now + (ttl + GraceSeconds - Uint32Modulus) * NanosPerSecond
      && ExpiryOf(now, ttl) < now + GraceSeconds * NanosPerSecond
  {
  }

  /** The largest TTL, 2^32 - 1 seconds, wraps to an expiry 29 seconds ahead. */
  lemma ExpiryOfLargestTtl(now: int)
    ensures ExpiryOf(now, Uint32Modulus - 1) == now + 29 * NanosPerSecond
  {
  }

  /** The later of two expiries: the insert arm only ever extends an expiry. */
  function Later(a: int, b: int): (r: int)
    ensures r >= a && r >= b
    ensures r == a || r == b
  {
    if a < b then b else a
  }

  /** Every entry is stored under the text of its own address. */
  predicate KeysConsistent(m: map<IpText, AllowRoute>)
  {
    forall k :: k in m ==> String(m[k].ipAddress) == k
  }

  /** Entries that survive a GC tick at `now`: those not strictly past their expiry. */
  function Surviving(m: map<IpText, AllowRoute>, now: int): map<IpText, AllowRoute>
  {
    map k | k in m && m[k].validUntil >= now :: m[k]
  }

  /** Addresses of the given width whose entries a GC tick at `now` removes. */
  function Expired(m: map<IpText, AllowRoute>, now: int, width: nat): set<Address>
  {
    set k | k in m && now > m[k].validUntil && |m[k].ipAddress| == width :: m[k].ipAddress
  }

  /**
   * A GC tick keeps exactly the unexpired entries, unchanged, and two ticks
   * at the same instant or at increasing instants remove what the later one
   * alone removes.
   */
  lemma SurvivingProperties(m: map<IpText, AllowRoute>, now: int, later: int)
    requires now <= later
    ensures forall k :: k in Surviving(m, now) <==> k in m && !(now > m[k].validUntil)
    ensures forall k :: k in Surviving(m, now) ==> Surviving(m, now)[k] == m[k]
    ensures Surviving(Surviving(m, now), later) == Surviving(m, later)
  {
  }

  /**
   * With consistent keys, an address deleted from the kernel is never the
   * address of a surviving entry of the same width: a tick does not revoke
   * what it keeps.
   */
  lemma ExpiredDisjointFromSurvivors(m: map<IpText, AllowRoute>, now: int, width: nat)
    requires KeysConsistent(m)
    ensures forall k :: k in Surviving(m, now) && |m[k].ipAddress| == width ==>
      m[k].ipAddress !in Expired(m, now, width)
  {
    forall k | k in Surviving(m, now) && |m[k].ipAddress| == width
      ensures m[k].ipAddress !in Expired(m, now, width)
    {
      assert forall j :: j in m && now > m[j].validUntil ==> String(m[j].ipAddress) != String(m[k].ipAddress);
    }
  }

  /** The messages a GC tick queues: one delete per family whose list is not empty. */
  function DeleteOps(v4ToDelete: seq<Address>, v6ToDelete: seq<Address>): seq<Op>
  {
    (if |v4ToDelete| > 0 then [SetDeleteElements(V4AllowSet, v4ToDelete)] else [])
    + (if |v6ToDelete| > 0 then [SetDeleteElements(V6AllowSet, v6ToDelete)] else [])
  }

  /** The allow list after recovering `elements` at `now`, each under its text and in order. */
  function Recovered(m: map<IpText, AllowRoute>, elements: seq<Address>, now: int): map<IpText, AllowRoute>
    decreases |elements|
  {
    if elements == [] then m
    else
      var n := |elements| - 1;
      Recovered(m, elements[..n], now)[String(elements[n]) := AllowRoute(elements[n], now + RecoverySeconds * NanosPerSecond)]
  }

  /**
   * Recovery stores every element under its text, as itself, expiring 330
   * seconds after `now`: elements of one width never share a text.
   */
  lemma {:induction false} RecoveredStores(m: map<IpText, AllowRoute>, elements: seq<Address>, now: int, width: nat)
    requires forall i :: 0 <= i < |elements| ==> |elements[i]| == width
    ensures forall e :: e in elements ==>
      String(e) in Recovered(m, elements, now)
      && Recovered(m, elements, now)[String(e)] == AllowRoute(e, now + RecoverySeconds * NanosPerSecond)
    decreases |elements|
  {
    if elements != [] {
      var n := |elements| - 1;
      var prefix := elements[..n];
      RecoveredStores(m, prefix, now, width);
      assert elements == prefix + [elements[n]];
      forall e | e in elements
        ensures String(e) in Recovered(m, elements, now)
        ensures Recovered(m, elements, now)[String(e)] == AllowRoute(e, now + RecoverySeconds * NanosPerSecond)
      {
        if e != elements[n] && String(e) == String(elements[n]) {
          StringInjectiveOnWidth(e, elements[n]);
        }
      }
    }
  }

  /** Recovery never drops a key: an entry is kept as it was or replaced by a recovered one. */
  lemma {:induction false} RecoveredKeys(m: map<IpText, AllowRoute>, elements: seq<Address>, now: int, k: IpText)
    requires k in m
    ensures k in Recovered(m, elements, now)
    ensures Recovered(m, elements, now)[k] == m[k]
      || Recovered(m, elements, now)[k].validUntil == now + RecoverySeconds * NanosPerSecond
    decreases |elements|
  {
    if elements != [] {
      RecoveredKeys(m, elements[..|elements| - 1], now, k);
    }
  }

  /** Recovering admitted addresses into a list of admitted addresses gives a list of admitted addresses. */
  lemma {:induction false} RecoveredAdmitted(m: map<IpText, AllowRoute>, elements: seq<Address>, now: int, rs: Ruleset)
    requires forall k :: k in m ==> Admitted(rs, m[k].ipAddress)
    requires forall i :: 0 <= i < |elements| ==> Admitted(rs, elements[i])
    ensures forall k :: k in Recovered(m, elements, now) ==> Admitted(rs, Recovered(m, elements, now)[k].ipAddress)
    decreases |elements|
  {
    if elements != [] {
      RecoveredAdmitted(m, elements[..|elements| - 1], now, rs);
    }
  }

  /** Recovering into a list whose entries all expire 330 seconds after `now` keeps it so. */
  lemma {:induction false} RecoveredUntil(m: map<IpText, AllowRoute>, elements: seq<Address>, now: int)
    requires forall k :: k in m ==> m[k].validUntil == now + RecoverySeconds * NanosPerSecond
    ensures forall k :: k in Recovered(m, elements, now) ==>
      Recovered(m, elements, now)[k].validUntil == now + RecoverySeconds * NanosPerSecond
    decreases |elements|
  {
    if elements != [] {
      RecoveredUntil(m, elements[..|elements| - 1], now);
    }
  }

  /** Recovery keeps consistent keys consistent. */
  lemma {:induction false} RecoveredKeysConsistent(m: map<IpText, AllowRoute>, elements: seq<Address>, now: int)
    requires KeysConsistent(m)
    ensures KeysConsistent(Recovered(m, elements, now))
    decreases |elements|
  {
    if elements != [] {
      RecoveredKeysConsistent(m, elements[..|elements| - 1], now);
    }
  }

  /** The dynamic allow set prepareNFTables creates for a family. */
  function AllowSet(f: Family): (d: SetDesc)
    ensures d.family == f
  {
    match f
    case IPv4 => V4AllowSet
    case IPv6 => V6AllowSet
  }

  /** What the two arms of manageAllowList read and write: the allow list, the kernel's ruleset and the connection's queue. */
  datatype Snapshot = Snapshot(allowList: map<IpText, AllowRoute>, ruleset: Ruleset, pending: seq<Op>)

  /** Flush on a snapshot: the queue commits if the kernel accepts it; a rejection changes only the queue, if anything. */
  function Committed(s: Snapshot, verdict: Verdict): Snapshot
  {
    match verdict
    case Accepted => Snapshot(s.allowList, Apply(s.ruleset, s.pending), [])
    case Rejected(queueKept) => if queueKept then s else s.(pending := [])
  }

  /** Every stored address is in its family's set now and after the queued messages commit. */
  ghost predicate InSync(s: Snapshot)
  {
    forall k :: k in s.allowList ==>
      Admitted(s.ruleset, s.allowList[k].ipAddress) && Admitted(Apply(s.ruleset, s.pending), s.allowList[k].ipAddress)
  }

  /** A flush keeps a synchronised snapshot synchronised, whether the kernel accepts it or not. */
  lemma CommittedKeepsSync(s: Snapshot, verdict: Verdict)
    requires InSync(s)
    ensures InSync(Committed(s, verdict))
  {
  }

  /**
   * The insert arm on a snapshot: a known address only has its expiry
   * extended; an address of neither width is dropped; any other is queued for
   * its family's set, the queue is flushed, and the address is stored only if
   * the kernel accepted the commit.
   */
  function Inserted(s: Snapshot, entry: AllowRoute, verdict: Verdict): Snapshot
  {
    var ip := entry.ipAddress;
    var key := String(ip);
    if key in s.allowList then
      var existing := s.allowList[key];
      s.(allowList := s.allowList[key := existing.(validUntil := Later(existing.validUntil, entry.validUntil))])
    else if FamilyOf(ip).None? then s
    else
      var flushed := Committed(s.(pending := s.pending + [SetAddElements(AllowSet(FamilyOf(ip).value), [ip])]), verdict);
      if verdict.Accepted? then flushed.(allowList := s.allowList[key := entry]) else flushed
  }

  /** Queueing an address for its family's set keeps a synchronised snapshot synchronised and admits the address once committed. */
  lemma QueuedAddKeepsSync(s: Snapshot, ip: Address)
    requires InSync(s) && FamilyOf(ip).Some?
    ensures var queued := s.(pending := s.pending + [SetAddElements(AllowSet(FamilyOf(ip).value), [ip])]);
      InSync(queued) && Admitted(Apply(queued.ruleset, queued.pending), ip)
  {
    var target := AllowSet(FamilyOf(ip).value);
    var add := SetAddElements(target, [ip]);
    var queued := s.pending + [add];
    var before := Apply(s.ruleset, s.pending);
    assert queued[..|queued| - 1] == s.pending;
    assert Apply(s.ruleset, queued) == Step(before, add);
    forall k | k in s.allowList
      ensures Admitted(Apply(s.ruleset, queued), s.allowList[k].ipAddress)
    {
      StepAddKeeps(before, target, [ip], s.allowList[k].ipAddress);
    }
    StepAddAdmits(before, target, ip);
  }

  /** The insert arm stores an entry only under the text of its own address. */
  lemma InsertedKeysConsistent(s: Snapshot, entry: AllowRoute, verdict: Verdict)
    requires KeysConsistent(s.allowList)
    ensures KeysConsistent(Inserted(s, entry, verdict).allowList)
  {
  }

  /** The insert arm keeps a synchronised snapshot synchronised, whether the kernel accepts the commit or not. */
  lemma InsertedKeepsSync(s: Snapshot, entry: AllowRoute, verdict: Verdict)
    requires InSync(s)
    ensures InSync(Inserted(s, entry, verdict))
  {
    var ip := entry.ipAddress;
    var key := String(ip);
    var r := Inserted(s, entry, verdict);
    if key in s.allowList {
      assert r.ruleset == s.ruleset && r.pending == s.pending;
      forall k | k in r.allowList
        ensures r.allowList[k].ipAddress == s.allowList[k].ipAddress
      {
      }
    } else if FamilyOf(ip).Some? {
      var queued := s.(pending := s.pending + [SetAddElements(AllowSet(FamilyOf(ip).value), [ip])]);
      QueuedAddKeepsSync(s, ip);
      CommittedKeepsSync(queued, verdict);
      if verdict.Accepted? {
        var flushed := Committed(queued, Accepted);
        assert r == flushed.(allowList := s.allowList[key := entry]);
        assert flushed.ruleset == Apply(queued.ruleset, queued.pending) && flushed.pending == [];
      }
    }
  }

  /**
   * After a committed insert of a 4- or 16-byte address whose text is not
   * held by a different address, the address is stored, allowed at least
   * until the entry's expiry, and admitted by the kernel.
   */
  lemma InsertedAdmits(s: Snapshot, entry: AllowRoute)
    requires KeysConsistent(s.allowList) && InSync(s) && FamilyOf(entry.ipAddress).Some?
    requires String(entry.ipAddress) in s.allowList ==> s.allowList[String(entry.ipAddress)].ipAddress == entry.ipAddress
    ensures var r := Inserted(s, entry, Accepted);
      var key := String(entry.ipAddress);
      && key in r.allowList && r.allowList[key].ipAddress == entry.ipAddress
      && r.allowList[key].validUntil >= entry.validUntil
      && Admitted(r.ruleset, entry.ipAddress)
  {
    InsertedKeysConsistent(s, entry, Accepted);
    InsertedKeepsSync(s, entry, Accepted);
  }

  /**
   * The insert arm never drops or shortens an entry; a known address is not
   * sent to the kernel again; a rejected commit leaves the kernel and the set
   * of stored addresses as they were.
   */
  lemma InsertedMonotone(s: Snapshot, entry: AllowRoute, verdict: Verdict)
    ensures var r := Inserted(s, entry, verdict);
      && (forall k :: k in s.allowList ==> k in r.allowList && r.allowList[k].validUntil >= s.allowList[k].validUntil)
      && (String(entry.ipAddress) in s.allowList ==> r.ruleset == s.ruleset && r.pending == s.pending)
      && (verdict.Rejected? ==> r.ruleset == s.ruleset && r.allowList.Keys == s.allowList.Keys)
      && (verdict.Rejected? && String(entry.ipAddress) !in s.allowList ==> r.allowList == s.allowList)
  {
  }

  /**
   * Re-inserting a known address changes only the expiry of its entry, which
   * becomes the later of the stored and the new one: the stored address, the
   * other entries, the kernel and the queue stay as they were.
   */
  lemma InsertedKnown(s: Snapshot, entry: AllowRoute, verdict: Verdict)
    requires String(entry.ipAddress) in s.allowList
    ensures var r := Inserted(s, entry, verdict);
      var key := String(entry.ipAddress);
      && r.ruleset == s.ruleset && r.pending == s.pending
      && r.allowList.Keys == s.allowList.Keys
      && r.allowList[key].ipAddress == s.allowList[key].ipAddress
      && r.allowList[key].validUntil == Later(s.allowList[key].validUntil, entry.validUntil)
      && (forall k :: k in s.allowList && k != key ==> r.allowList[k] == s.allowList[k])
  {
  }

  /**
   * An address of neither 4 nor 16 bytes is dropped: when every stored
   * address has one of those widths, nothing in the snapshot changes.
   */
  lemma InsertedOtherWidth(s: Snapshot, entry: AllowRoute, verdict: Verdict)
    requires KeysConsistent(s.allowList)
    requires forall k :: k in s.allowList ==> FamilyOf(s.allowList[k].ipAddress).Some?
    requires FamilyOf(entry.ipAddress).None?
    ensures Inserted(s, entry, verdict) == s
  {
  }

  /**
   * The allow list is keyed by text, and an IPv4 address prints like its
   * IPv4-mapped IPv6 form: once the mapped form is stored, inserting the
   * 4-byte address only extends that entry, so an IPv4 address the kernel
   * did not admit stays unadmitted.
   */
  lemma MappedFormShadowsIPv4(s: Snapshot, entry: AllowRoute, verdict: Verdict)
    requires KeysConsistent(s.allowList) && |entry.ipAddress| == IPv4Len
    requires exists k :: k in s.allowList && s.allowList[k].ipAddress == To16(entry.ipAddress)
    requires !Admitted(s.ruleset, entry.ipAddress) && !Admitted(Apply(s.ruleset, s.pending), entry.ipAddress)
    ensures var r := Inserted(s, entry, verdict);
      !Admitted(r.ruleset, entry.ipAddress) && !Admitted(Apply(r.ruleset, r.pending), entry.ipAddress)
  {
    var k :| k in s.allowList && s.allowList[k].ipAddress == To16(entry.ipAddress);
    StringCollision(entry.ipAddress);
    assert String(entry.ipAddress) in s.allowList;
  }

  /** Does `v` list, once each, the addresses of the given width that a tick at `now` removes? */
  ghost predicate ExpiredList(v: seq<Address>, m: map<IpText, AllowRoute>, now: int, width: nat)
  {
    Distinct(v) && forall ip :: ip in v <==> ip in Expired(m, now, width)
  }

  /**
   * The GC arm on a snapshot, given the deletion lists it built: expired
   * entries leave the list, one delete per non-empty list is queued, and the
   * queue is flushed only when both lists are non-empty.
   */
  function Ticked(s: Snapshot, now: int, v4ToDelete: seq<Address>, v6ToDelete: seq<Address>, verdict: Verdict): Snapshot
  {
    var queued := Snapshot(Surviving(s.allowList, now), s.ruleset, s.pending + DeleteOps(v4ToDelete, v6ToDelete));
    if |v4ToDelete| > 0 && |v6ToDelete| > 0 then Committed(queued, verdict) else queued
  }

  /** The queued deletions keep every address they do not name. */
  lemma DeleteOpsKeep(rs: Ruleset, v4ToDelete: seq<Address>, v6ToDelete: seq<Address>, ip: Address)
    requires Admitted(rs, ip) && ip !in v4ToDelete && ip !in v6ToDelete
    ensures Admitted(Apply(rs, DeleteOps(v4ToDelete, v6ToDelete)), ip)
  {
    var ops4 := if |v4ToDelete| > 0 then [SetDeleteElements(V4AllowSet, v4ToDelete)] else [];
    var ops6 := if |v6ToDelete| > 0 then [SetDeleteElements(V6AllowSet, v6ToDelete)] else [];
    ApplyAppend(rs, ops4, ops6);
    var mid := Apply(rs, ops4);
    if |v4ToDelete| > 0 {
      assert ops4[..0] == [];
      StepDeleteKeeps(rs, V4AllowSet, v4ToDelete, ip);
    }
    if |v6ToDelete| > 0 {
      assert ops6[..0] == [];
      StepDeleteKeeps(mid, V6AllowSet, v6ToDelete, ip);
    }
  }

  /** A tick keeps keys consistent, and a synchronised snapshot synchronised: it never revokes a survivor. */
  lemma TickedKeepsSync(s: Snapshot, now: int, v4ToDelete: seq<Address>, v6ToDelete: seq<Address>, verdict: Verdict)
    requires KeysConsistent(s.allowList)
    requires forall ip :: ip in v4ToDelete ==> ip in Expired(s.allowList, now, IPv4Len)
    requires forall ip :: ip in v6ToDelete ==> ip in Expired(s.allowList, now, IPv6Len)
    ensures KeysConsistent(Ticked(s, now, v4ToDelete, v6ToDelete, verdict).allowList)
    ensures InSync(s) ==> InSync(Ticked(s, now, v4ToDelete, v6ToDelete, verdict))
  {
    var survivors := Surviving(s.allowList, now);
    var queued := Snapshot(survivors, s.ruleset, s.pending + DeleteOps(v4ToDelete, v6ToDelete));
    if InSync(s) {
      ExpiredDisjointFromSurvivors(s.allowList, now, IPv4Len);
      ExpiredDisjointFromSurvivors(s.allowList, now, IPv6Len);
      ApplyAppend(s.ruleset, s.pending, DeleteOps(v4ToDelete, v6ToDelete));
      forall k | k in survivors
        ensures Admitted(Apply(s.ruleset, queued.pending), survivors[k].ipAddress)
      {
        DeleteOpsKeep(Apply(s.ruleset, s.pending), v4ToDelete, v6ToDelete, survivors[k].ipAddress);
      }
      assert InSync(queued);
      CommittedKeepsSync(queued, verdict);
    }
  }

  /**
   * When both families have expired addresses and the kernel accepts the
   * commit, no expired address is admitted any more.
   */
  lemma TickedRevokes(s: Snapshot, now: int, v4ToDelete: seq<Address>, v6ToDelete: seq<Address>)
    requires |v4ToDelete| > 0 && |v6ToDelete| > 0
    requires forall ip :: ip in Expired(s.allowList, now, IPv4Len) ==> ip in v4ToDelete
    requires forall ip :: ip in Expired(s.allowList, now, IPv6Len) ==> ip in v6ToDelete
    ensures var r := Ticked(s, now, v4ToDelete, v6ToDelete, Accepted);
      forall k :: k in s.allowList && now > s.allowList[k].validUntil ==> !Admitted(r.ruleset, s.allowList[k].ipAddress)
  {
    var d4 := SetDeleteElements(V4AllowSet, v4ToDelete);
    var d6 := SetDeleteElements(V6AllowSet, v6ToDelete);
    var before := Apply(s.ruleset, s.pending);
    assert DeleteOps(v4ToDelete, v6ToDelete) == [d4, d6];
    ApplyAppend(s.ruleset, s.pending, [d4, d6]);
    assert [d4, d6][..1] == [d4] && [d4][..0] == [];
    var mid := Step(before, d4);
    assert Apply(before, [d4]) == mid;
    assert Apply(before, [d4, d6]) == Step(mid, d6);
    forall k | k in s.allowList && now > s.allowList[k].validUntil
      ensures !Admitted(Step(mid, d6), s.allowList[k].ipAddress)
    {
      var ip := s.allowList[k].ipAddress;
      if |ip| == IPv4Len {
        assert ip in Expired(s.allowList, now, IPv4Len);
        StepDeleteRevokes(before, V4AllowSet, v4ToDelete, ip);
        StepOtherFamily(mid, d6, ip);
      } else if |ip| == IPv6Len {
        assert ip in Expired(s.allowList, now, IPv6Len);
        StepDeleteRevokes(mid, V6AllowSet, v6ToDelete, ip);
      }
    }
  }

  /**
   * When only one family has expired addresses, their deletion is queued but
   * not flushed: here an expired IPv4 address has left the list, and the
   * kernel still admits it after the tick.
   */
  lemma TickMayLeaveExpiredAdmitted()
    ensures var ip: Address := [10, 0, 0, 1];
      var s := Snapshot(map[String(ip) := AllowRoute(ip, 0)], Ruleset({}, [], {ip}, {}), []);
      var r := Ticked(s, 1, [ip], [], Accepted);
      && ExpiredList([ip], s.allowList, 1, IPv4Len) && ExpiredList([], s.allowList, 1, IPv6Len)
      && r.allowList == map[] && Admitted(r.ruleset, ip)
  {
    var ip: Address := [10, 0, 0, 1];
    var m := map[String(ip) := AllowRoute(ip, 0)];
    assert m[String(ip)].ipAddress == ip;
    assert ip in Expired(m, 1, IPv4Len);
    assert Expired(m, 1, IPv4Len) == {ip};
    assert Expired(m, 1, IPv6Len) == {};
  }

  /** Each collected address has the width of its list. */
  lemma ExpiredListWidth(v: seq<Address>, m: map<IpText, AllowRoute>, now: int, width: nat)
    requires ExpiredList(v, m, now, width)
    ensures forall i :: 0 <= i < |v| ==> |v[i]| == width
  {
    forall i | 0 <= i < |v|
      ensures |v[i]| == width
    {
      assert v[i] in Expired(m, now, width);
    }
  }

  /** The entries left after a tick at `now` has visited every key outside `remaining`. */
  function PrunedSoFar(m: map<IpText, AllowRoute>, remaining: set<IpText>, now: int): map<IpText, AllowRoute>
  {
    map k | k in m && (k in remaining || m[k].validUntil >= now) :: m[k]
  }

  /** The addresses of the given width a tick at `now` has collected after visiting every key outside `remaining`. */
  function ExpiredSoFar(m: map<IpText, AllowRoute>, remaining: set<IpText>, now: int, width: nat): set<Address>
  {
    set k | k in m && k !in remaining && now > m[k].validUntil && |m[k].ipAddress| == width :: m[k].ipAddress
  }

  /** Visiting one more key removes it if it has expired, and collects its address. */
  lemma PruneStep(m: map<IpText, AllowRoute>, remaining: set<IpText>, now: int, key: IpText)
    requires key in remaining && key in m
    ensures PrunedSoFar(m, remaining - {key}, now)
      == if now > m[key].validUntil then PrunedSoFar(m, remaining, now) - {key} else PrunedSoFar(m, remaining, now)
  {
  }

  /** Does `v` list, once each, the addresses a tick at `now` has collected so far? */
  ghost predicate CollectedSoFar(v: seq<Address>, m: map<IpText, AllowRoute>, remaining: set<IpText>, now: int, width: nat)
  {
    Distinct(v) && forall ip :: ip in v <==> ip in ExpiredSoFar(m, remaining, now, width)
  }

  /** A deletion list after visiting one more entry: its address is appended if it has expired and has the list's width. */
  function Collect(v: seq<Address>, entry: AllowRoute, now: int, width: nat): seq<Address>
  {
    if now > entry.validUntil && |entry.ipAddress| == width then v + [entry.ipAddress] else v
  }

  /** The collected set grows by the visited entry's address exactly when the entry is collected. */
  lemma ExpiredSoFarStep(m: map<IpText, AllowRoute>, remaining: set<IpText>, now: int, key: IpText, width: nat)
    requires key in remaining && key in m
    ensures ExpiredSoFar(m, remaining - {key}, now, width)
      == if now > m[key].validUntil && |m[key].ipAddress| == width
         then ExpiredSoFar(m, remaining, now, width) + {m[key].ipAddress}
         else ExpiredSoFar(m, remaining, now, width)
  {
    var after := ExpiredSoFar(m, remaining - {key}, now, width);
    if now > m[key].validUntil && |m[key].ipAddress| == width {
      assert m[key].ipAddress in after;
    }
  }

  /** Visiting one more key keeps the deletion list exact, and free of repeats since keys are consistent. */
  lemma CollectStep(v: seq<Address>, m: map<IpText, AllowRoute>, remaining: set<IpText>, now: int, key: IpText, width: nat)
    requires KeysConsistent(m) && key in remaining && key in m
    requires CollectedSoFar(v, m, remaining, now, width)
    ensures CollectedSoFar(Collect(v, m[key], now, width), m, remaining - {key}, now, width)
  {
    ExpiredSoFarStep(m, remaining, now, key, width);
    if now > m[key].validUntil && |m[key].ipAddress| == width {
      FreshAddress(m, remaining, now, key, width);
      var w := v + [m[key].ipAddress];
      forall i, j | 0 <= i < j < |w|
        ensures w[i] != w[j]
      {
        if j == |v| {
          assert w[i] in v;
        }
      }
    }
  }

  /** With consistent keys, an address not yet visited has not been collected. */
  lemma FreshAddress(m: map<IpText, AllowRoute>, remaining: set<IpText>, now: int, key: IpText, width: nat)
    requires KeysConsistent(m) && key in remaining && key in m
    ensures m[key].ipAddress !in ExpiredSoFar(m, remaining, now, width)
  {
    forall k | k in m && k !in remaining
      ensures m[k].ipAddress != m[key].ipAddress
    {
      assert String(m[k].ipAddress) == k && String(m[key].ipAddress) == key;
    }
  }

  /** Once every key has been visited, the tick has left the survivors and collected the expired addresses. */
  lemma PruneDone(m: map<IpText, AllowRoute>, now: int, width: nat)
    ensures PrunedSoFar(m, {}, now) == Surviving(m, now)
    ensures ExpiredSoFar(m, {}, now, width) == Expired(m, now, width)
  {
  }

  /** prepareNFTables on a snapshot: the layout is queued behind what is pending, then flushed. */
  function Laid(s: Snapshot, config: ParsedConfig, verdict: Verdict): Snapshot
    requires |config.allowedIPs| % 2 == 0
  {
    Committed(s.(pending := s.pending + TopologyOps(config)), verdict)
  }

  /** Laying out the tables leaves the allow list alone, and a synchronised snapshot synchronised. */
  lemma LaidKeepsSync(s: Snapshot, config: ParsedConfig, verdict: Verdict)
    requires |config.allowedIPs| % 2 == 0
    ensures Laid(s, config, verdict).allowList == s.allowList
    ensures InSync(s) ==> InSync(Laid(s, config, verdict))
  {
    var queued := s.(pending := s.pending + TopologyOps(config));
    if InSync(s) {
      var before := Apply(s.ruleset, s.pending);
      ApplyAppend(s.ruleset, s.pending, TopologyOps(config));
      TopologyKeepsSets(before, config);
      var after := Apply(s.ruleset, queued.pending);
      assert after.v4 == before.v4 && after.v6 == before.v6;
      forall k | k in s.allowList
        ensures Admitted(after, s.allowList[k].ipAddress)
      {
        assert Admitted(before, s.allowList[k].ipAddress);
      }
      assert InSync(queued);
      CommittedKeepsSync(queued, verdict);
    }
  }

  /** The five messages that open the layout, queued one by one behind `pending`. */
  lemma LayoutHead(pending: seq<Op>, chain: Chain)
    ensures pending + [AddTable] + [FlushTable] + [AddChain(chain)] + [AddSet(V4AllowSet)] + [AddSet(V6AllowSet)]
      == pending + [AddTable, FlushTable, AddChain(chain), AddSet(V4AllowSet), AddSet(V6AllowSet)]
  {
  }

  /** The opening messages followed by one AddRule per rule are the layout's messages. */
  lemma LayoutRules(pending: seq<Op>, headed: seq<Op>, config: ParsedConfig)
    requires |config.allowedIPs| % 2 == 0
    requires headed == pending + [AddTable, FlushTable, AddChain(ChainFor(config.mode)), AddSet(V4AllowSet), AddSet(V6AllowSet)]
    ensures headed + AddRules(RuleOrder(PermanentElements(config.allowedIPs, IPv4), PermanentElements(config.allowedIPs, IPv6)))
      == pending + TopologyOps(config)
  {
  }

  /** Entries recovered from a family's set are admitted, so recovery keeps a list in sync with an empty queue. */
  lemma RecoveredKeepsSync(m: map<IpText, AllowRoute>, elements: seq<Address>, now: int, rs: Ruleset, f: Family)
    requires WellTyped(rs)
    requires forall e :: e in elements ==> e in Members(rs, f)
    ensures InSync(Snapshot(m, rs, [])) ==> InSync(Snapshot(Recovered(m, elements, now), rs, []))
  {
    if InSync(Snapshot(m, rs, [])) {
      forall i | 0 <= i < |elements|
        ensures Admitted(rs, elements[i])
      {
        assert elements[i] in Members(rs, f);
      }
      RecoveredAdmitted(m, elements, now, rs);
      assert Apply(rs, []) == rs;
    }
  }

  /**
   * Every admitted address is listed under its text, and every listed address
   * is admitted, each allowed until `until`. An admitted IPv4 address whose
   * text is held by its mapped form is listed only through that form.
   */
  ghost predicate ListsExactly(m: map<IpText, AllowRoute>, rs: Ruleset, until: int)
  {
    && (forall ip :: Admitted(rs, ip) ==> String(ip) in m && m[String(ip)].validUntil == until)
    && (forall k :: k in m ==> Admitted(rs, m[k].ipAddress) && m[k].validUntil == until)
  }

  datatype StartupError =
    | ConnectionFailed
    | PrepareFailed(cause: KernelError)
    | RecoverV4Failed(cause: KernelError)
    | RecoverV6Failed(cause: KernelError)

  class NFTablesManager {
    const nlInterface: Conn
    var ipv4AllowSet: Option<SetDesc>
    var ipv6AllowSet: Option<SetDesc>
    /** The buffered sync channel, oldest entry first. */
    var syncChannel: seq<AllowRoute>
    var allowList: map<IpText, AllowRoute>

    ghost predicate Valid()
      reads this, nlInterface
    {
      nlInterface.Valid() && KeysConsistent(allowList)
    }

    /** prepareNFTables has assigned both set descriptors. */
    predicate Prepared()
      reads this
    {
      ipv4AllowSet == Some(V4AllowSet) && ipv6AllowSet == Some(V6AllowSet)
    }

    /** The state the two arms of manageAllowList work on. */
    function Snap(): Snapshot
      reads this, nlInterface
    {
      Snapshot(allowList, nlInterface.ruleset, nlInterface.pending)
    }

    /** The allow list never claims an address the kernel would drop, before or after the queue commits. */
    ghost predicate Synced()
      reads this, nlInterface
    {
      InSync(Snap())
    }

    /**
     * The state NewNFTablesManager hands out when it started on a kernel
     * holding `current` at time `now`: the tables laid out and committed,
     * nothing queued or buffered, every admitted address listed under its
     * text and only admitted addresses listed, each for 330 seconds, in sync
     * with the kernel.
     */
    ghost predicate StartedFrom(current: Ruleset, config: ParsedConfig, now: int)
      requires |config.allowedIPs| % 2 == 0
      reads this, nlInterface
    {
      && Valid() && Prepared() && Synced()
      && nlInterface.ruleset == Apply(current, TopologyOps(config))
      && nlInterface.pending == [] && syncChannel == []
      && ListsExactly(allowList, current, now + RecoverySeconds * NanosPerSecond)
    }

    /** The struct literal of NewNFTablesManager: no set descriptors, an empty channel and an empty list. */
    constructor (conn: Conn)
      requires conn.Valid()
      ensures nlInterface == conn && Valid() && Synced()
      ensures ipv4AllowSet == None && ipv6AllowSet == None
      ensures syncChannel == [] && allowList == map[]
    {
      nlInterface := conn;
      ipv4AllowSet := None;
      ipv6AllowSet := None;
      syncChannel := [];
      allowList := map[];
    }

    /** AddRoute: send the address with its expiry to the sync channel. */
    method AddRoute(ip: Address, ttl: Uint32, now: int)
      modifies this`syncChannel
      ensures syncChannel == old(syncChannel) + [AllowRoute(ip, ExpiryOf(now, ttl))]
    {
      var newEntry := AllowRoute(ip, ExpiryOf(now, ttl));
      syncChannel := syncChannel + [newEntry];
    }

    /** The insert arm of manageAllowList: take the oldest entry off the channel and handle it. */
    method ReceiveInsert(verdict: Verdict)
      requires Valid() && Prepared() && syncChannel != []
      modifies this`syncChannel, this`allowList, nlInterface
      ensures Valid() && Prepared()
      ensures syncChannel == old(syncChannel[1..])
      ensures Snap() == Inserted(old(Snap()), old(syncChannel[0]), verdict)
      ensures old(Synced()) ==> Synced()
    {
      var newEntry := syncChannel[0];
      syncChannel := syncChannel[1..];
      InsertedKeysConsistent(Snap(), newEntry, verdict);
      if Synced() {
        InsertedKeepsSync(Snap(), newEntry, verdict);
      }
      OnInsert(newEntry, verdict);
    }

    /**
     * One entry received from the sync channel, as the snapshot function
     * Inserted describes it; InsertedKeysConsistent and InsertedKeepsSync
     * carry Valid and Synced across it.
     */
    method OnInsert(newEntry: AllowRoute, verdict: Verdict)
      requires Valid() && Prepared()
      modifies this`allowList, nlInterface
      ensures nlInterface.Valid()
      ensures Snap() == Inserted(old(Snap()), newEntry, verdict)
    {
      var ipAsString := String(newEntry.ipAddress);
      if ipAsString in allowList {
        var existingRoute := allowList[ipAsString];
        if existingRoute.validUntil < newEntry.validUntil {
          allowList := allowList[ipAsString := existingRoute.(validUntil := newEntry.validUntil)];
        }
        return;
      }

      var targetSet: SetDesc;
      if |newEntry.ipAddress| == IPv4Len {
        targetSet := ipv4AllowSet.value;
      } else if |newEntry.ipAddress| == IPv6Len {
        targetSet := ipv6AllowSet.value;
      } else {
        return;
      }

      ghost var queued := Snap().(pending := nlInterface.pending + [SetAddElements(targetSet, [newEntry.ipAddress])]);
      assert targetSet == AllowSet(FamilyOf(newEntry.ipAddress).value);
      nlInterface.Queue(SetAddElements(targetSet, [newEntry.ipAddress]));
      assert Snap() == queued;
      var err := nlInterface.Flush(verdict);
      assert Snap() == Committed(queued, verdict);
      if err.Some? {
        return;
      }
      allowList := allowList[ipAsString := newEntry];
    }

    /**
     * A GC tick at `now`, as the snapshot function Ticked describes it. The
     * returned lists are the deletions the loop collected: each expired
     * address of its width, once, in the map's iteration order.
     */
    method OnTick(now: int, verdict: Verdict) returns (ghost v4ToDelete: seq<Address>, ghost v6ToDelete: seq<Address>)
      requires Valid() && Prepared()
      modifies this`allowList, nlInterface
      ensures Valid() && Prepared()
      ensures ExpiredList(v4ToDelete, old(allowList), now, IPv4Len)
      ensures ExpiredList(v6ToDelete, old(allowList), now, IPv6Len)
      ensures Snap() == Ticked(old(Snap()), now, v4ToDelete, v6ToDelete, verdict)
      ensures old(Synced()) ==> Synced()
    {
      var ipv4ToDelete, ipv6ToDelete := CollectExpired(now);
      v4ToDelete, v6ToDelete := ipv4ToDelete, ipv6ToDelete;
      TickedKeepsSync(old(Snap()), now, v4ToDelete, v6ToDelete, verdict);
      ExpiredListWidth(ipv4ToDelete, old(allowList), now, IPv4Len);
      ExpiredListWidth(ipv6ToDelete, old(allowList), now, IPv6Len);

      ghost var queued := Snapshot(allowList, nlInterface.ruleset, nlInterface.pending + DeleteOps(ipv4ToDelete, ipv6ToDelete));
      QueueDeletes(ipv4ToDelete, ipv6ToDelete);
      assert Snap() == queued;
      if |ipv4ToDelete| > 0 && |ipv6ToDelete| > 0 {
        var err := nlInterface.Flush(verdict);
      }
    }

    /** The deletions of the GC arm: one SetDeleteElements per family whose list is not empty. */
    method QueueDeletes(ipv4ToDelete: seq<Address>, ipv6ToDelete: seq<Address>)
      requires nlInterface.Valid() && Prepared()
      requires forall i :: 0 <= i < |ipv4ToDelete| ==> |ipv4ToDelete[i]| == IPv4Len
      requires forall i :: 0 <= i < |ipv6ToDelete| ==> |ipv6ToDelete[i]| == IPv6Len
      modifies nlInterface
      ensures nlInterface.Valid() && nlInterface.ruleset == old(nlInterface.ruleset)
      ensures nlInterface.pending == old(nlInterface.pending) + DeleteOps(ipv4ToDelete, ipv6ToDelete)
    {
      ghost var ops4 := if |ipv4ToDelete| > 0 then [SetDeleteElements(V4AllowSet, ipv4ToDelete)] else [];
      ghost var ops6 := if |ipv6ToDelete| > 0 then [SetDeleteElements(V6AllowSet, ipv6ToDelete)] else [];
      if |ipv4ToDelete| > 0 {
        nlInterface.Queue(SetDeleteElements(ipv4AllowSet.value, ipv4ToDelete));
      }
      assert nlInterface.pending == old(nlInterface.pending) + ops4;
      if |ipv6ToDelete| > 0 {
        nlInterface.Queue(SetDeleteElements(ipv6AllowSet.value, ipv6ToDelete));
      }
      assert nlInterface.pending == old(nlInterface.pending) + ops4 + ops6;
    }

    /**
     * The loop of the GC arm: visit every key once, drop each entry strictly
     * past its expiry, and collect its address by width. The kernel is not
     * touched.
     */
    method CollectExpired(now: int) returns (ipv4ToDelete: seq<Address>, ipv6ToDelete: seq<Address>)
      requires KeysConsistent(allowList)
      modifies this`allowList
      ensures allowList == Surviving(old(allowList), now)
      ensures ExpiredList(ipv4ToDelete, old(allowList), now, IPv4Len)
      ensures ExpiredList(ipv6ToDelete, old(allowList), now, IPv6Len)
    {
      ipv4ToDelete, ipv6ToDelete := [], [];
      ghost var start := allowList;
      var keys := allowList.Keys;
      while keys != {}
        invariant keys <= start.Keys
        invariant allowList == PrunedSoFar(start, keys, now)
        invariant CollectedSoFar(ipv4ToDelete, start, keys, now, IPv4Len)
        invariant CollectedSoFar(ipv6ToDelete, start, keys, now, IPv6Len)
        decreases |keys|
      {
        var key :| key in keys;
        var listEntry := allowList[key];
        PruneStep(start, keys, now, key);
        CollectStep(ipv4ToDelete, start, keys, now, key, IPv4Len);
        CollectStep(ipv6ToDelete, start, keys, now, key, IPv6Len);
        if now > listEntry.validUntil {
          if |listEntry.ipAddress| == IPv4Len {
            ipv4ToDelete := ipv4ToDelete + [listEntry.ipAddress];
          } else if |listEntry.ipAddress| == IPv6Len {
            ipv6ToDelete := ipv6ToDelete + [listEntry.ipAddress];
          }
          allowList := allowList - {key};
        }
        keys := keys - {key};
      }
      PruneDone(start, now, IPv4Len);
      PruneDone(start, now, IPv6Len);
    }

    /**
     * recoverExistingSetEntries: read the elements of one dynamic set and
     * store each under its text with an expiry 330 seconds after `now`. A
     * failed read changes nothing. The returned list is what the kernel gave.
     */
    method RecoverExistingSetEntries(nftSet: SetDesc, readOk: bool, now: int)
      returns (err: Option<KernelError>, ghost existingEntries: seq<Address>)
      requires Valid()
      modifies this`allowList
      ensures Valid()
      ensures err.None? <==> readOk
      ensures !readOk ==> allowList == old(allowList)
      ensures readOk ==>
        && Distinct(existingEntries)
        && (forall ip :: ip in existingEntries <==> ip in Members(nlInterface.ruleset, nftSet.family))
        && allowList == Recovered(old(allowList), existingEntries, now)
      ensures old(Synced()) && nlInterface.pending == [] ==> Synced()
    {
      var read := nlInterface.GetSetElements(nftSet, readOk);
      if read.Err? {
        return Some(read.error), [];
      }
      var entries := read.value;
      existingEntries := entries;
      var i := 0;
      while i < |entries|
        invariant 0 <= i <= |entries|
        invariant allowList == Recovered(old(allowList), entries[..i], now)
      {
        var ip := entries[i];
        var allowListEntry := AllowRoute(ip, now + RecoverySeconds * NanosPerSecond);
        assert entries[..i + 1][..i] == entries[..i];
        allowList := allowList[String(ip) := allowListEntry];
        i := i + 1;
      }
      assert entries[..i] == entries;
      RecoveredKeysConsistent(old(allowList), existingEntries, now);
      RecoveredKeepsSync(old(allowList), existingEntries, now, nlInterface.ruleset, nftSet.family);
      err := None;
    }

    /**
     * The two recoverExistingSetEntries calls of NewNFTablesManager: the IPv4
     * set, then the IPv6 set, stopping at the first failure. The returned
     * lists are what the kernel gave for each set.
     */
    method RecoverAllowSets(read4Ok: bool, read6Ok: bool, now: int)
      returns (err: Option<StartupError>, ghost e4: seq<Address>, ghost e6: seq<Address>)
      requires Valid() && Prepared()
      modifies this`allowList
      ensures Valid()
      ensures !read4Ok ==> err.Some? && err.value.RecoverV4Failed?
      ensures read4Ok && !read6Ok ==> err.Some? && err.value.RecoverV6Failed?
      ensures read4Ok && read6Ok ==>
        && err.None?
        && (forall ip :: ip in e4 <==> ip in nlInterface.ruleset.v4)
        && (forall ip :: ip in e6 <==> ip in nlInterface.ruleset.v6)
        && allowList == Recovered(Recovered(old(allowList), e4, now), e6, now)
      ensures read4Ok && read6Ok && old(allowList) == map[] && nlInterface.pending == [] ==>
        Synced() && ListsExactly(allowList, nlInterface.ruleset, now + RecoverySeconds * NanosPerSecond)
    {
      var recovered;
      e6 := [];
      recovered, e4 := RecoverExistingSetEntries(ipv4AllowSet.value, read4Ok, now);
      if recovered.Some? {
        return Some(RecoverV4Failed(recovered.value)), e4, e6;
      }
      recovered, e6 := RecoverExistingSetEntries(ipv6AllowSet.value, read6Ok, now);
      if recovered.Some? {
        return Some(RecoverV6Failed(recovered.value)), e4, e6;
      }
      err := None;
      if old(allowList) == map[] && nlInterface.pending == [] {
        StartupLists(nlInterface.ruleset, e4, e6, now);
      }
    }

    /**
     * The recovery part of NewNFTablesManager, on a kernel that holds the
     * layout committed over `current`: both sets are recovered into the
     * empty list, which then lists every address `current` admitted under
     * its text, and nothing else.
     */
    method RecoverLaidOut(config: ParsedConfig, read4Ok: bool, read6Ok: bool, now: int, ghost current: Ruleset)
      returns (err: Option<StartupError>)
      requires Valid() && Prepared() && |config.allowedIPs| % 2 == 0
      requires allowList == map[] && syncChannel == [] && nlInterface.pending == []
      requires nlInterface.ruleset == Apply(current, TopologyOps(config))
      modifies this`allowList
      ensures !read4Ok ==> err.Some? && err.value.RecoverV4Failed?
      ensures read4Ok && !read6Ok ==> err.Some? && err.value.RecoverV6Failed?
      ensures err.None? ==> read4Ok && read6Ok && StartedFrom(current, config, now)
    {
      var recoverErr, e4, e6 := RecoverAllowSets(read4Ok, read6Ok, now);
      if recoverErr.Some? {
        return recoverErr;
      }
      LaidLists(allowList, current, config, now + RecoverySeconds * NanosPerSecond);
      err := None;
    }

    /**
     * prepareNFTables: assign the set descriptors, queue the layout of the
     * configuration and commit it, as the snapshot function Laid describes.
     */
    method PrepareNFTables(config: ParsedConfig, verdict: Verdict) returns (err: Option<KernelError>)
      requires Valid() && |config.allowedIPs| % 2 == 0
      modifies this`ipv4AllowSet, this`ipv6AllowSet, nlInterface
      ensures Valid() && Prepared()
      ensures err.None? <==> verdict.Accepted?
      ensures Snap() == Laid(old(Snap()), config, verdict)
      ensures old(Synced()) ==> Synced()
      ensures verdict.Accepted? && old(nlInterface.pending) == [] ==>
        nlInterface.ruleset == Apply(old(nlInterface.ruleset), TopologyOps(config)) && nlInterface.pending == []
    {
      ghost var before := Snap();
      ipv4AllowSet := Some(V4AllowSet);
      ipv6AllowSet := Some(V6AllowSet);
      QueueLayout(config);
      ghost var queued := Snap();
      assert queued == before.(pending := before.pending + TopologyOps(config));
      err := nlInterface.Flush(verdict);
      assert Snap() == Committed(queued, verdict);
      LaidKeepsSync(before, config, verdict);
      if before.pending == [] {
        assert before.pending + TopologyOps(config) == TopologyOps(config);
      }
    }

    /**
     * The messages prepareNFTables queues: the table, its flush, the chain,
     * the two dynamic sets, then one AddRule per rule of the layout.
     */
    method QueueLayout(config: ParsedConfig)
      requires nlInterface.Valid() && Prepared() && |config.allowedIPs| % 2 == 0
      modifies nlInterface
      ensures nlInterface.Valid() && nlInterface.ruleset == old(nlInterface.ruleset)
      ensures nlInterface.pending == old(nlInterface.pending) + TopologyOps(config)
    {
      var targetChain := ChainFor(config.mode);
      ghost var pending := nlInterface.pending;
      nlInterface.Queue(AddTable);
      nlInterface.Queue(FlushTable);
      nlInterface.Queue(AddChain(targetChain));
      nlInterface.Queue(AddSet(ipv4AllowSet.value));
      nlInterface.Queue(AddSet(ipv6AllowSet.value));
      LayoutHead(pending, targetChain);

      var ipv4Permanent, ipv6Permanent := BuildPermanentElements(config.allowedIPs);
      ghost var headed := nlInterface.pending;
      QueueRules(RuleOrder(ipv4Permanent, ipv6Permanent));
      LayoutRules(pending, headed, config);
    }

    /** The AddRule calls of prepareNFTables: one message per rule, in order. */
    method QueueRules(rules: seq<Rule>)
      requires nlInterface.Valid()
      modifies nlInterface
      ensures nlInterface.Valid() && nlInterface.ruleset == old(nlInterface.ruleset)
      ensures nlInterface.pending == old(nlInterface.pending) + AddRules(rules)
    {
      var i := 0;
      while i < |rules|
        invariant 0 <= i <= |rules|
        invariant nlInterface.Valid() && nlInterface.ruleset == old(nlInterface.ruleset)
        invariant nlInterface.pending == old(nlInterface.pending) + AddRules(rules[..i])
      {
        assert AddRules(rules[..i + 1]) == AddRules(rules[..i]) + [AddRule(rules[i])];
        nlInterface.Queue(AddRule(rules[i]));
        i := i + 1;
      }
      assert rules[..i] == rules;
    }
  }

  /** The allow list NewNFTablesManager recovers: the IPv4 set's elements, then the IPv6 set's, into an empty list. */
  function StartupList(e4: seq<Address>, e6: seq<Address>, now: int): map<IpText, AllowRoute>
  {
    Recovered(Recovered(map[], e4, now), e6, now)
  }

  /** After recovering both families into an empty list, every admitted address is listed until `now` + 330 s. */
  lemma StartupListsAdmitted(rs: Ruleset, e4: seq<Address>, e6: seq<Address>, now: int)
    requires WellTyped(rs)
    requires forall ip :: ip in e4 <==> ip in rs.v4
    requires forall ip :: ip in e6 <==> ip in rs.v6
    ensures forall ip :: Admitted(rs, ip) ==>
      String(ip) in StartupList(e4, e6, now)
      && StartupList(e4, e6, now)[String(ip)].validUntil == now + RecoverySeconds * NanosPerSecond
  {
    var m4 := Recovered(map[], e4, now);
    var m := Recovered(m4, e6, now);
    forall i | 0 <= i < |e4|
      ensures |e4[i]| == IPv4Len
    {
      assert e4[i] in Members(rs, IPv4);
    }
    forall i | 0 <= i < |e6|
      ensures |e6[i]| == IPv6Len
    {
      assert e6[i] in Members(rs, IPv6);
    }
    RecoveredStores(map[], e4, now, IPv4Len);
    RecoveredStores(m4, e6, now, IPv6Len);
    forall ip | Admitted(rs, ip)
      ensures String(ip) in m && m[String(ip)].validUntil == now + RecoverySeconds * NanosPerSecond
    {
      if |ip| == IPv4Len {
        assert ip in rs.v4;
        assert m4[String(ip)] == AllowRoute(ip, now + RecoverySeconds * NanosPerSecond);
        RecoveredKeys(m4, e6, now, String(ip));
      } else {
        assert ip in rs.v6;
        assert ip in e6;
      }
    }
  }

  /** After recovering both families into an empty list, every listed address is admitted until `now` + 330 s. */
  lemma StartupListsOnlyAdmitted(rs: Ruleset, e4: seq<Address>, e6: seq<Address>, now: int)
    requires WellTyped(rs)
    requires forall ip :: ip in e4 <==> ip in rs.v4
    requires forall ip :: ip in e6 <==> ip in rs.v6
    ensures forall k :: k in StartupList(e4, e6, now) ==>
      Admitted(rs, StartupList(e4, e6, now)[k].ipAddress)
      && StartupList(e4, e6, now)[k].validUntil == now + RecoverySeconds * NanosPerSecond
  {
    var m4 := Recovered(map[], e4, now);
    forall i | 0 <= i < |e4|
      ensures Admitted(rs, e4[i])
    {
      assert e4[i] in Members(rs, IPv4);
    }
    forall i | 0 <= i < |e6|
      ensures Admitted(rs, e6[i])
    {
      assert e6[i] in Members(rs, IPv6);
    }
    RecoveredAdmitted(map[], e4, now, rs);
    RecoveredAdmitted(m4, e6, now, rs);
    RecoveredUntil(map[], e4, now);
    RecoveredUntil(m4, e6, now);
  }

  /**
   * Recovering both dynamic sets of a kernel into an empty list lists every
   * admitted address under its text and only admitted addresses, and leaves
   * the list in sync with that kernel and an empty queue.
   */
  lemma StartupLists(rs: Ruleset, e4: seq<Address>, e6: seq<Address>, now: int)
    requires WellTyped(rs)
    requires forall ip :: ip in e4 <==> ip in rs.v4
    requires forall ip :: ip in e6 <==> ip in rs.v6
    ensures ListsExactly(StartupList(e4, e6, now), rs, now + RecoverySeconds * NanosPerSecond)
    ensures InSync(Snapshot(StartupList(e4, e6, now), rs, []))
  {
    StartupListsAdmitted(rs, e4, e6, now);
    StartupListsOnlyAdmitted(rs, e4, e6, now);
    assert Apply(rs, []) == rs;
  }

  /**
   * Recovery keys the list by text, and the IPv6 set is recovered second: when
   * the IPv4 set holds an address and the IPv6 set its mapped form, the one
   * entry left holds the mapped form. The IPv4 element stays admitted, yet no
   * entry holds it, so no tick ever queues its deletion.
   */
  lemma RecoveryShadowsIPv4(ip: Address, now: int, later: int)
    requires |ip| == IPv4Len
    ensures var m := StartupList([ip], [To16(ip)], now);
      && Admitted(Ruleset({}, [], {ip}, {To16(ip)}), ip)
      && m.Keys == {String(ip)} && m[String(ip)].ipAddress == To16(ip)
      && (forall k :: k in m ==> m[k].ipAddress != ip)
      && Expired(m, later, IPv4Len) == {}
  {
    var until := now + RecoverySeconds * NanosPerSecond;
    StringCollision(ip);
    assert [ip][..0] == [] && [To16(ip)][..0] == [];
    var m4 := Recovered(map[], [ip], now);
    assert m4 == Recovered(map[], [], now)[String(ip) := AllowRoute(ip, until)];
    var e6 := [To16(ip)];
    assert e6[..0] == [] && e6[0] == To16(ip);
    assert Recovered(m4, e6[..0], now) == m4;
    var m := Recovered(m4, e6, now);
    assert m == m4[String(To16(ip)) := AllowRoute(To16(ip), until)];
    assert m == map[String(ip) := AllowRoute(To16(ip), until)];
  }

  /** Admission depends on the two dynamic sets alone, so a list matching one ruleset matches any with the same sets. */
  lemma ListsExactlySameSets(m: map<IpText, AllowRoute>, a: Ruleset, b: Ruleset, until: int)
    requires a.v4 == b.v4 && a.v6 == b.v6
    requires ListsExactly(m, a, until)
    ensures ListsExactly(m, b, until)
  {
    forall ip
      ensures Admitted(a, ip) == Admitted(b, ip)
    {
      if FamilyOf(ip).Some? {
        assert Members(a, FamilyOf(ip).value) == Members(b, FamilyOf(ip).value);
      }
    }
  }

  /** The layout leaves the dynamic sets alone, so a list matching the laid-out kernel matches the kernel found at startup. */
  lemma LaidLists(m: map<IpText, AllowRoute>, current: Ruleset, config: ParsedConfig, until: int)
    requires |config.allowedIPs| % 2 == 0
    requires ListsExactly(m, Apply(current, TopologyOps(config)), until)
    ensures ListsExactly(m, current, until)
  {
    TopologyKeepsSets(current, config);
    ListsExactlySameSets(m, Apply(current, TopologyOps(config)), current, until);
  }

  /**
   * NewNFTablesManager: open the connection to a kernel holding `current`,
   * prepare the tables, then recover the IPv4 set and then the IPv6 set,
   * stopping at the first failure. On success the allow list holds exactly
   * the addresses the dynamic sets held, each for 330 seconds.
   */
  method NewNFTablesManager(config: ParsedConfig, current: Ruleset, connectOk: bool, verdict: Verdict,
                            read4Ok: bool, read6Ok: bool, now: int)
    returns (r: Result<NFTablesManager, StartupError>)
    requires WellTyped(current) && |config.allowedIPs| % 2 == 0
    ensures !connectOk ==> r == Err(ConnectionFailed)
    ensures connectOk && verdict.Rejected? ==> r.Err? && r.error.PrepareFailed?
    ensures connectOk && verdict.Accepted? && !read4Ok ==> r.Err? && r.error.RecoverV4Failed?
    ensures connectOk && verdict.Accepted? && read4Ok && !read6Ok ==> r.Err? && r.error.RecoverV6Failed?
    ensures r.Ok? ==>
      var manager := r.value;
      && connectOk && verdict.Accepted? && read4Ok && read6Ok
      && fresh(manager) && fresh(manager.nlInterface)
      && manager.StartedFrom(current, config, now)
  {
    if !connectOk {
      return Err(ConnectionFailed);
    }
    var nlInterface := new Conn(current);
    var manager := new NFTablesManager(nlInterface);

    var err := manager.PrepareNFTables(config, verdict);
    if err.Some? {
      return Err(PrepareFailed(err.value));
    }
    var recoverErr := manager.RecoverLaidOut(config, read4Ok, read6Ok, now, current);
    if recoverErr.Some? {
      return Err(recoverErr.value);
    }
    return Ok(manager);
  }
}
