# coredns-ip-destination-guard, modelled in Dafny

The CoreDNS plugin `ipdestinationguard` turns DNS answers into an egress
firewall. Every A or AAAA record the server sends back opens the kernel's
nftables firewall for that destination address, for the record's TTL plus 30
seconds. Everything else is rejected with ICMP admin-prohibited, except
loopback output, established or related connections, ICMPv6 neighbour
discovery and the permanently allowed ranges from the configuration.

This project models the three parts of the plugin that carry its logic, and
proves what they promise:

- **The allow-list manager** (`nftablesmanager.go`), module `AllowListManager`.
  - Class `NFTablesManager` holds the in-memory allow list (a map from the
    address's `net.IP.String` text to the address and its expiry), the sync
    channel, the two set descriptors and a netlink connection `Kernel.Conn`.
  - The connection queues messages and commits them atomically on `Flush`.
  - The two arms of the manager's `select` are the methods `OnInsert`
    (reached through `ReceiveInsert`) and `OnTick`. They run one at a time.
  - Each method is proved against a function on a `Snapshot`:
    - `Inserted` for the insert arm, `Ticked` for the GC arm and `Laid` for
      `prepareNFTables`;
    - a `Snapshot` is the allow list, the kernel's ruleset and the
      connection's queue.
  - The invariant `Synced` says that every listed address is admitted by the
    kernel's set of its family, now and once the queue commits.
  - Startup (`NewNFTablesManager`) prepares the tables and then recovers both
    dynamic sets. On success every admitted address is listed under its
    text, and only admitted addresses are listed. Because an IPv4 element
    and its mapped IPv6 form share a text, the IPv6 entry can take the key,
    leaving the IPv4 element admitted but held by no entry
    (`RecoveryShadowsIPv4`).
- **The firewall layout** built by `prepareNFTables`, module `Topology`:
  - the chain chosen by the mode;
  - the permanent interval-element lists of both families;
  - the ordered rules, as abstract tags carrying the protocol numbers,
    offsets and lengths they match on.
- **Configuration** (`setup.go`):
  - `getIPRangeEnd` and `getIPRange` over big-endian byte strings, in modules
    `Bytes` and `RangeConverter`;
  - `parseConfig` in its single-line and block forms, and `validateConfig`,
    in module `ConfigParser`.
- **Answer extraction** (`responseparser.go`), module `DnsAnswers`.
  - `ResponseParser.WriteMsg` makes one `AddRoute` call per A or AAAA answer,
    in answer order, then forwards the response.

Go's `net.IP` methods `To4`, `To16` and `String` are modelled in `NetIP`.
`String` is modelled as a datatype that distinguishes renderings exactly as
Go does. In particular, an IPv4 address and its IPv4-mapped IPv6 form print
alike, so they share a key in the allow list. `StringCollision` and
`MappedFormShadowsIPv4` state this collision and its effect.

Time is an integer number of nanoseconds passed in as `now`. Four things
outside the code are parameters:

- whether the kernel accepts a commit: `Kernel.Verdict`, which also says
  whether a rejected queue stays on the connection;
- whether a set read succeeds;
- whether the netlink connection opens;
- whether the downstream DNS write succeeds: `writeOk`, passed to
  `DnsAnswers.ResponseWriter.WriteMsg`.

The parser takes `getIPRange` as a function value. setup.go's getIPRange is
`GetIPRange(parseAddress)`, where `parseAddress` stands for `net.ParseCIDR`
and `net.ParseIP`.

## Model

| member | source | states |
|---|---|---|
| Bytes.Value | setup.go:149 | The big-endian value of a byte string is below 2^(8·length). |
| Bytes.FillBytes | setup.go:153-154 | Writes a value that fits into exactly `n` bytes whose big-endian value is that value. |
| Bytes.ValueInjective | setup.go:153-154 | Two byte strings of one width with the same value are equal, so the written end is unique. |
| NetIP.To4 | responseparser.go:24 | To4 gives a 4-byte address or nil: the address itself when it has 4 bytes, the last 4 bytes of an IPv4-mapped address, and nil for anything else. |
| NetIP.To16 | responseparser.go:27 | To16 gives 16 bytes or nil: the IPv4-mapped form of a 4-byte address (whose To4 is the address back), a 16-byte address unchanged, and nil for other lengths. |
| NetIP.String | nftablesmanager.go:415 | The text is a dotted quad exactly when To4 succeeds, and then carries the To4 bytes. Colon text carries all 16 bytes. |
| NetIP.StringInjectiveOnWidth | nftablesmanager.go:401 | Two addresses of one width that print alike are equal. |
| NetIP.StringCollision | nftablesmanager.go:415-416 | A 4-byte address and its IPv4-mapped form differ but print alike, so they share an allow-list key. |
| NetIP.StringCollisionsAreMapped | nftablesmanager.go:415-416 | Distinct addresses that print alike are an IPv4 address and its mapped form, in either order. |
| RangeConverter.IpRangeEnd | setup.go:147-157 | getIPRangeEnd returns as many bytes as the start, with value start + 2^(width − maskedBits). |
| RangeConverter.IpRangeEndUnique | setup.go:147-157 | Any address of the start's width with that value is the end getIPRangeEnd returns. |
| RangeConverter.RangeFrom | setup.go:151-154 | The conversion succeeds exactly when the mask fits the width and the end fits the buffer. Otherwise the process panics (FillBytes, or the wrapped shift count). |
| RangeConverter.RangeStart | setup.go:163-166 | The start is the To4 form when there is one, else the address itself. |
| RangeConverter.RangeOfBare | setup.go:173-183 | A bare address gives a 4-byte start (if IPv4-mapped) or a 16-byte start, and end = start + 1 in the same width. Only the all-ones address panics. |
| RangeConverter.RangeOfCidr | setup.go:161-171 | A CIDR gives [network, network + 2^(width − prefix)) with the network in To4 form when it has one. It panics exactly when the prefix exceeds the width or the end overflows. |
| RangeConverter.RangeOfNotAnAddress | setup.go:185 | Text that is neither a CIDR nor an address yields the error and no range. |
| RangeConverter.MappedCidrCrashes | setup.go:163-170 | An IPv4-mapped CIDR with a prefix of 96 or more shrinks its start to 4 bytes but keeps the long prefix, so getIPRangeEnd panics. |
| RangeConverter.ExampleV4Cidr | setup_test.go:50-55 | 192.168.0.0/24 becomes [192.168.0.0, 192.168.1.0). |
| RangeConverter.ExampleV4CidrTen | setup.go:161-171 | 10.0.0.0/24 becomes [10.0.0.0, 10.0.1.0). |
| RangeConverter.IpRangeEndOf | setup.go:147-157 | An address of the start's width whose value is start + 2^(width − maskedBits) is the end getIPRangeEnd returns, and the end then fits. |
| RangeConverter.RangeEndRaised | setup.go:147-157 | Masking the low bytes of top + [b] + low gives the end top + [b + 1] + low. |
| RangeConverter.CidrRaised | setup.go:161-171 | A CIDR whose network has no 4-byte form and whose mask covers top + [b] becomes [top + [b] + low, top + [b + 1] + low). |
| RangeConverter.ExampleV6RangeEnd | setup_test.go:27-31 | fe80::ab12:abcd:1234:0 with 112 masked bits ends at fe80::ab12:abcd:1235:0. |
| RangeConverter.ExampleV6Cidr | setup_test.go:62-67 | fe80::ab12:abcd:1234:42/64, masked to fe80::, becomes [fe80::, fe80:0:0:1::). |
| RangeConverter.ExampleV4Bare | setup_test.go:56-61 | The bare address 192.168.0.42 becomes [192.168.0.42, 192.168.0.43) in 4-byte form. |
| ConfigParser.ParseConfig | setup.go:71-130 | The loops of parseConfig return exactly what the recursive definition ParseConfigSpec gives, including which error stops them. |
| ConfigParser.ExpandRangesPairs | setup.go:114-122 | A successful expansion keeps what was collected before. It appends exactly one (start, end) pair per token, in token order, each the token's range. |
| ConfigParser.ExpandRangesFails | setup.go:114-118 | Expansion fails exactly when some token has no range. The error is that of the first such token. |
| ConfigParser.ParseBlockAccepts | setup.go:97-127 | The block parses exactly when every line is a mode line with one argument or an allowedIPs line with arguments that all convert. |
| ConfigParser.ParseBlockAddresses | setup.go:108-122 | A parsed block keeps the starting addresses and adds whole pairs after them. |
| ConfigParser.ExpandIsPairs | setup.go:114-122 | A successful expansion yields the collected addresses followed by TokenPairs of the tokens: the (start, end) pair of each token, in token order. |
| ConfigParser.BlockIsPairs | setup.go:100-126 | A parsed block yields the starting addresses followed by BlockPairs of its lines: the token pairs of each allowedIPs line in line order, with mode lines adding nothing. |
| ConfigParser.SingleLineAddresses | setup.go:77-94 | The single-line form's addresses are two per argument after the mode and are exactly TokenPairs of those arguments. |
| ConfigParser.BlockAddresses | setup.go:96-128 | A block parsed from an empty start has an even number of addresses, exactly BlockPairs of its lines. |
| ConfigParser.ParseBlockMode | setup.go:101-106 | In a parsed block every mode line has one argument. The mode is the argument of the last mode line, or the starting mode if there is none. |
| ConfigParser.ParseBlockFirstError | setup.go:100-125 | The first rejected line decides the error: wrong mode arity, an empty allowedIPs, a failed token of that line, or an unknown directive. |
| ConfigParser.ParseConfigShape | setup.go:77-94 | Results always hold pairs. With arguments on the line, the block is ignored, the first argument is the mode and there is one pair per further argument, namely TokenPairs of those arguments. With no arguments, a parsed block holds exactly BlockPairs of its lines. An empty block gives mode "" and no addresses. |
| ConfigParser.SingleLineOneToken | setup.go:77-94 | A single line with a mode and one token whose range exists holds that mode and exactly that range. |
| ConfigParser.ExampleSingleLineCidr | setup_test.go:121-127 | "nft-local 10.0.0.0/24" with getIPRange parses to mode nft-local and the single pair [10.0.0.0, 10.0.1.0). |
| ConfigParser.ExampleSingleLineInvalid | setup_test.go:142-147 | "nft-local 999.999.999.999" fails with getIPRange's can't-extract error for that token. |
| ConfigParser.ValidateConfig | setup.go:134-144 | No error exactly for "nft-local" and "nft-gateway". "mode is required" exactly for the empty mode. Otherwise the invalid-mode error naming the mode. |
| Kernel.FamilyOf | nftablesmanager.go:429-436 | An address has a family exactly when it has 4 or 16 bytes, and the family's width is its length. |
| Kernel.ApplyAppend | nftablesmanager.go:439-442 | Committing two queued batches one after the other has the same effect as committing their concatenation. |
| Kernel.ApplyWellTyped | nftablesmanager.go:427-438 | Messages that only add or delete keys of their set's width keep every set's keys at that width. |
| Kernel.StepAddKeeps | nftablesmanager.go:438 | Adding elements never revokes an admitted address. |
| Kernel.StepAddAdmits | nftablesmanager.go:438 | An address added to the set of its own family is admitted afterwards. |
| Kernel.StepDeleteKeeps | nftablesmanager.go:465-471 | Deleting elements keeps every address it does not name. |
| Kernel.StepDeleteRevokes | nftablesmanager.go:465-471 | An address deleted from the set of its own family is no longer admitted. |
| Kernel.StepOtherFamily | nftablesmanager.go:427-436 | Changing one family's set leaves an address of the other family exactly as admitted as it was. |
| Topology.ApplyAddRules | nftablesmanager.go:98-383 | Committing the AddRule messages appends their rules to the chain, in order, and changes nothing else. |
| Kernel.Conn.constructor | nftablesmanager.go:483-489 | A new connection sees the kernel's current ruleset and has nothing queued. |
| Kernel.Conn.Queue | nftablesmanager.go:438 | A netlink call queues one message and changes nothing in the kernel. |
| Kernel.Conn.Flush | nftablesmanager.go:439-442 | Flush succeeds exactly when the kernel accepts. It then commits the whole queue in order and empties it. A rejection leaves the kernel unchanged. |
| Kernel.Conn.GetSetElements | nftablesmanager.go:390-393 | A successful read lists each element of the family's set exactly once. A failed read returns the error. |
| Topology.ChainFor | nftablesmanager.go:47-60 | The chain is "corednsforward" on the forward hook exactly when the mode is literally "gateway", otherwise "corednsoutput" on the output hook. |
| Topology.ValidatedModesUseOutput | nftablesmanager.go:57-60 | Every mode validateConfig accepts gets the output chain, since neither "nft-local" nor "nft-gateway" is "gateway". |
| Topology.BuildPermanentElements | nftablesmanager.go:82-96 | The append loop builds, for each family, exactly the list PermanentElements defines. |
| Topology.PermanentElementsOdd | nftablesmanager.go:82-96 | Each permanent list has an odd length. |
| Topology.PermanentElementsOpening | nftablesmanager.go:82-83 | Each list opens with the all-zero interval end of its family's width. |
| Topology.PermanentElementsCount | nftablesmanager.go:85-96 | The two lists together hold every configured address once, plus their two opening elements. |
| Topology.PermanentElementsAlternate | nftablesmanager.go:89-95 | After the opening element a list alternates start and interval end. Every start in it belongs to the list's family (4 bytes for IPv4, any other length for IPv6). |
| Topology.PermanentElementsPresent | nftablesmanager.go:220-222 | A list holds more than its opening element, so its permanent rule exists, exactly when some configured pair goes to its family. |
| Topology.RuleOrderShape | nftablesmanager.go:98-383 | The rule list has 7 rules plus one per non-trivial permanent list. The invalid-drop and established-accept rules come first and the reject comes last and only there. Every destination rule loads 4 bytes at offset 16 (IPv4) or 16 bytes at offset 24 (IPv6). |
| Topology.ApplyOpening | nftablesmanager.go:76-80 | Table, flush, chain and set creation add the chain, empty the table's rules and keep both dynamic sets. |
| Topology.TopologyEffect | nftablesmanager.go:76-383 | Committing the layout adds the chain, leaves exactly the rule order in it and keeps both dynamic sets unchanged. |
| Topology.TopologyKeepsSets | nftablesmanager.go:76-80 | The layout keeps both dynamic sets, so a restart does not drop addresses already allowed. |
| Topology.TopologyIdempotent | nftablesmanager.go:41-385 | Preparing the tables twice leaves the kernel as preparing them once. |
| Topology.TopologyOpsWellTyped | nftablesmanager.go:76-383 | No layout message adds keys to or removes keys from a dynamic set. |
| AllowListManager.ExpiryOfCases | nftablesmanager.go:35-36 | The expiry never lies before `now`. It is ttl+30 s ahead below 2^32−30. From there on the uint32 sum wraps and the expiry is less than 30 s ahead. |
| AllowListManager.ExpiryOfLargestTtl | nftablesmanager.go:36 | TTL 2^32−1 wraps to an expiry 29 seconds ahead. |
| AllowListManager.Later | nftablesmanager.go:419-421 | The kept expiry is the larger of the old and the new one. |
| AllowListManager.SurvivingProperties | nftablesmanager.go:452-463 | A tick keeps exactly the entries not strictly past expiry, unchanged. Ticks at increasing instants compose to the later tick. |
| AllowListManager.ExpiredDisjointFromSurvivors | nftablesmanager.go:452-463 | With consistent keys, no deleted address is the address of a surviving entry of the same width. |
| AllowListManager.RecoveredStores | nftablesmanager.go:395-402 | Recovery stores every element under its own text, as itself, expiring 330 s after `now`. |
| AllowListManager.RecoveredKeys | nftablesmanager.go:395-402 | Recovery never drops a key. An existing entry stays as it was or becomes a recovered one. |
| AllowListManager.RecoveredAdmitted | nftablesmanager.go:395-402 | Recovering admitted addresses into a list of admitted addresses gives a list of admitted addresses. |
| AllowListManager.RecoveredUntil | nftablesmanager.go:399 | Recovery into a list whose entries all expire at now+330 s keeps that so. |
| AllowListManager.RecoveredKeysConsistent | nftablesmanager.go:401 | Recovery keeps every entry stored under the text of its own address. |
| AllowListManager.RecoveredKeepsSync | nftablesmanager.go:395-402 | Recovering a family's set elements keeps a list in sync with a kernel that has nothing queued. |
| AllowListManager.CommittedKeepsSync | nftablesmanager.go:439-442 | A flush keeps a synchronised state synchronised, whether the kernel accepts it or not. |
| AllowListManager.QueuedAddKeepsSync | nftablesmanager.go:438 | Queueing an address for its family's set keeps the state synchronised and admits the address once the queue commits. |
| AllowListManager.InsertedKeysConsistent | nftablesmanager.go:415-444 | The insert arm stores entries only under the text of their own address. |
| AllowListManager.InsertedKeepsSync | nftablesmanager.go:414-444 | The insert arm keeps the list synchronised: it stores an address only after its commit was accepted. |
| AllowListManager.InsertedAdmits | nftablesmanager.go:438-444 | After an accepted commit, a new 4- or 16-byte address is stored under its text, allowed at least until its expiry, and admitted by the kernel. |
| AllowListManager.InsertedMonotone | nftablesmanager.go:416-425 | No entry is dropped or shortened. A known address causes no kernel message. A rejected commit leaves the kernel and the stored keys unchanged, and leaves the whole list unchanged when the address was new. |
| AllowListManager.InsertedKnown | nftablesmanager.go:416-425 | Re-inserting a known address keeps the stored address and sets its expiry to exactly the later of the stored and the new one. Every other entry, the key set, the kernel and the queue stay unchanged. |
| AllowListManager.InsertedOtherWidth | nftablesmanager.go:427-436 | An address of neither 4 nor 16 bytes leaves the whole snapshot unchanged: list, kernel and queue. |
| AllowListManager.MappedFormShadowsIPv4 | nftablesmanager.go:415-425 | Once an address's IPv4-mapped form is listed, inserting the 4-byte address only extends that entry, so the 4-byte address stays unadmitted. |
| AllowListManager.DeleteOpsKeep | nftablesmanager.go:465-471 | The queued deletions keep every address they do not name. |
| AllowListManager.TickedKeepsSync | nftablesmanager.go:446-477 | A tick keeps keys consistent and the list synchronised: it never revokes a survivor. |
| AllowListManager.TickedRevokes | nftablesmanager.go:473-477 | When both families have expired addresses and the commit is accepted, no expired address stays admitted. |
| AllowListManager.TickMayLeaveExpiredAdmitted | nftablesmanager.go:473 | When only IPv4 addresses expire, the deletion is queued but not flushed, and the expired address stays admitted. |
| AllowListManager.ExpiredListWidth | nftablesmanager.go:454-458 | Each collected address has the width of its list. |
| AllowListManager.PruneStep | nftablesmanager.go:453-460 | Visiting one key removes its entry exactly when it is strictly past expiry. |
| AllowListManager.CollectStep | nftablesmanager.go:452-458 | Visiting one key keeps each deletion list equal to the expired addresses of its width seen so far, each listed once. |
| AllowListManager.LaidKeepsSync | nftablesmanager.go:41-385 | prepareNFTables leaves the allow list alone and keeps a synchronised state synchronised. |
| AllowListManager.StartupListsAdmitted | nftablesmanager.go:504-510 | After startup recovery every admitted address is listed under its text, expiring at now+330 s. |
| AllowListManager.StartupListsOnlyAdmitted | nftablesmanager.go:504-510 | After startup recovery every listed address is admitted and expires at now+330 s. |
| AllowListManager.StartupLists | nftablesmanager.go:504-510 | After startup recovery every admitted address is listed under its text and only admitted addresses are listed, each until now+330 s, in sync with the kernel. |
| AllowListManager.RecoveryShadowsIPv4 | nftablesmanager.go:395-402 | When the IPv4 set holds an address and the IPv6 set its mapped form, recovery leaves one entry holding the mapped form. The IPv4 element stays admitted, but no entry holds it and no tick ever expires it. |
| AllowListManager.LaidLists | nftablesmanager.go:500-510 | A list matching the kernel after the layout matches the kernel found at startup. |
| AllowListManager.NFTablesManager.constructor | nftablesmanager.go:491-498 | A new manager has no set descriptors, an empty channel and an empty, synchronised allow list. |
| AllowListManager.NFTablesManager.AddRoute | nftablesmanager.go:32-39 | AddRoute sends one entry, with the address and the expiry `now` + (ttl+30 mod 2^32) s, to the channel. |
| AllowListManager.NFTablesManager.ReceiveInsert | nftablesmanager.go:414 | Takes the oldest channel entry and handles it as Inserted says, keeping Valid and Synced. |
| AllowListManager.NFTablesManager.OnInsert | nftablesmanager.go:414-444 | The new allow list, ruleset and queue are Inserted of the old ones. |
| AllowListManager.NFTablesManager.OnTick | nftablesmanager.go:446-477 | Deletion lists hold each expired address of their width once. The new state is Ticked of the old one. Valid and Synced are kept. |
| AllowListManager.NFTablesManager.QueueDeletes | nftablesmanager.go:465-471 | Queues one SetDeleteElements per non-empty list, IPv4 first. |
| AllowListManager.NFTablesManager.CollectExpired | nftablesmanager.go:447-463 | The loop leaves exactly the surviving entries and collects every expired address of each width exactly once. |
| AllowListManager.NFTablesManager.RecoverExistingSetEntries | nftablesmanager.go:389-405 | A failed read returns the error with the list unchanged. Otherwise every element of the set is stored as Recovered says, keeping Valid and Synced. |
| AllowListManager.NFTablesManager.RecoverAllowSets | nftablesmanager.go:504-510 | Recovers IPv4 and then IPv6, stopping at the first failure with that family's error. From an empty list and queue, every admitted address is listed under its text and only admitted addresses are listed. |
| AllowListManager.NFTablesManager.RecoverLaidOut | nftablesmanager.go:504-510 | After the layout, recovery fails with the first failing family. Otherwise every address admitted at startup is listed under its text and only admitted addresses are listed, for 330 s. |
| AllowListManager.NFTablesManager.PrepareNFTables | nftablesmanager.go:41-386 | Assigns both set descriptors, queues the layout and flushes. Succeeds exactly when the kernel accepts. The new state is Laid of the old, Synced is kept, and from an empty queue the kernel holds the layout. |
| AllowListManager.NFTablesManager.QueueLayout | nftablesmanager.go:76-383 | Queues exactly the layout messages behind what is pending, without touching the kernel. |
| AllowListManager.NFTablesManager.QueueRules | nftablesmanager.go:98-383 | Queues one AddRule per rule, in order. |
| AllowListManager.NewNFTablesManager | nftablesmanager.go:482-515 | The error is the first that occurs: connection, prepare, IPv4 recovery, IPv6 recovery. On success the kernel holds the layout over the sets it had, nothing is queued or buffered, every admitted address is listed under its text and only admitted addresses are listed, each until now+330 s, in sync. |
| DnsAnswers.RoutesAppend | responseparser.go:20-30 | The calls for two concatenated answer sections are the calls for the first followed by those for the second. |
| DnsAnswers.RoutesAreAddressRecords | responseparser.go:20-30 | There is exactly one call per A or AAAA record, in answer order, and none for any other record. |
| DnsAnswers.NoAddressRecordsNoRoutes | responseparser.go:20-30 | An answer section without A or AAAA records, including an empty one, causes no call. |
| DnsAnswers.RouteForShape | responseparser.go:21-28 | An A record yields a 4-byte address or nil and an AAAA record a 16-byte address or nil, each with the record's TTL unchanged. |
| DnsAnswers.ExampleMixedAnswers | responseparser.go:20-30 | A, other and AAAA records give the 4-byte A address and then the AAAA address, with the other record skipped. |
| DnsAnswers.Entries | nftablesmanager.go:35-38 | Each call sends the address with its expiry computed from the record's TTL, one entry per call. |
| DnsAnswers.ResponseWriter.WriteMsg | responseparser.go:32 | The wrapped writer receives the response and reports whether writing failed. |
| DnsAnswers.ResponseParser.constructor | responseparser.go:7-12 | NewResponseParser keeps the writer and the manager it is given. |
| DnsAnswers.ResponseParser.WriteMsg | responseparser.go:19-33 | The channel gains exactly the entries of the A and AAAA answers, in order. The response is then forwarded unchanged and the writer's error is returned. |

## Left out

- Concurrency is not modelled:
  - the manager goroutine, the channel capacity of 100 and its blocking send;
  - `select` and the GC ticker's 30-second period.
  The two arms are methods called one at a time, and the channel is an unbounded sequence.
- The `sync.Pool` of entries is left out. It only reuses allocations.
- Logging calls are left out.
- The netlink wire encoding of rules is not modelled. Rules are tags carrying the numbers they match on.
- The anonymous ICMPv6 and permanent interval sets are part of the rule that looks them up. They are not separate AddSet messages.
- How the kernel evaluates an interval set, and how it treats a rejected transaction beyond the `Verdict` parameter, are not modelled.
- Address text parsing (`net.ParseCIDR`, `net.ParseIP`) is not modelled. `getIPRange` takes the parsed result.
- The Caddy tokenizer is not modelled. `parseConfig` takes the argument list and the directive lines.
- `setup`, plugin registration and the `IPDestinationGuard` handler only wire the plugin into CoreDNS and are not modelled.
- `DestinationGuardManager` declares `AddRoutes(ips, ttl)`, but the code calls `AddRoute(ip, ttl)` once per record. The model follows the code.
- The type assertions `answer.(*dns.A)` and `answer.(*dns.AAAA)` are not modelled. A record whose header type disagrees with its Go type would panic there. The model's answer datatype cannot express that mismatch.
- Answer sections other than the answer section are not modelled. WriteMsg never reads them.
- DnsAnswers.ResponseParser.WriteMsg: the clock is read once, as `now`, for all AddRoute calls. In Go, each AddRoute reads it again.
- AllowListManager.NFTablesManager.RecoverExistingSetEntries: the clock is read once, as `now`, for all recovered elements. In Go, each element reads it again.
- AllowListManager.NFTablesManager.OnInsert: its ensures states the new state and the connection's validity, but not KeysConsistent or Synced. Those follow from InsertedKeysConsistent and InsertedKeepsSync, which ReceiveInsert applies.
- AllowListManager.NewNFTablesManager: failing to open the netlink connection is the parameter `connectOk`.
- ConfigParser.ExpandRanges: a crash inside getIPRangeEnd (setup.go:151-154) comes back as the error RangeFailed(token, Panic) instead of ending the process.
- AllowListManager.NewNFTablesManager: it requires an even-length allowedIPs. `prepareNFTables` reads them in pairs and would index past the end of an odd list. ParseConfigShape proves that parseConfig only yields pairs.
- AllowListManager.NewNFTablesManager: the returned error cases name the failing step, not Go's wrapped error text.
- AllowListManager.NFTablesManager.RecoverAllowSets, RecoverLaidOut, QueueLayout, QueueRules and QueueDeletes split the inline code of NewNFTablesManager, prepareNFTables and the GC arm into steps. They are not separate functions in the Go code.
- AllowListManager.NFTablesManager.OnTick: the map's iteration order is the order of a nondeterministic choice. The deletion lists are fixed as sets of addresses, each listed once, not in Go's order.
