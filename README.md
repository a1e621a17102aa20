# IgniteFailureDetector in Dafny

IgniteFailureDetector holds the callers of an Apache Ignite application back
while the cluster is degraded. A threshold, the "normal" number of server
(non-client) members, is stored as eight big-endian bytes in a ZooKeeper node.
A detector keeps two counters:

- `normalNodes`, the decoded threshold;
- `currentNodes`, the number of server members in the last topology a
  discovery event reported.

The cluster counts as healthy when `currentNodes >= normalNodes - 1L`. A
caller of `check` that finds the cluster unhealthy registers a waiter object in
the `pausing` list. Every threshold change and every discovery event re-runs
`reflesh`, which wakes and removes all registered waiters once the cluster is
healthy. IgniteFailureConsole is the bootstrap tool that writes the threshold.
It encodes the number with `putLong` and creates the watched path, with any
missing parent nodes, unless the path already exists. Its `main` turns the
outcome into a process exit status.

The project has five modules:

- `JavaInts` (`java_ints.dfy`) holds Java's `byte` and `long` as integer
  ranges. It writes out two's-complement wrap-around (`Wrap`, `Sub`), the
  `(byte)` cast, `& 0xFF` and `>>>`.
- `FailureDetector` (`failure_detector.dfy`) holds the decoder `GetLong` and
  the health predicates `GateOpen` / `MustWait`. It also holds the server-member
  count, and the `Detector` class with the two counters and the waiter
  registry. `notify` is modelled as moving the waiter to a `released` log.
- `ZkStore` (`zk_store.dfy`) holds paths, the parent function, and the
  ancestor chain. `Pending` gives the nodes a recursive create still has to
  add. The `Store` class holds nodes, their payloads and the creation order.
  `Store.Create` requires its caller to have created the parent first.
- `FailureConsole` (`failure_console.dfy`) holds the encoder `Encode`, the
  in-place `PutLong`, `CreatePath`, `Invoke`, and `Run`, the exit-status
  decision of `main`.
- `Wrappers` (`wrappers.dfy`) holds `Option`, `Outcome` and `Result`.

The detector has no "Unknown" status: both counters start at 0, which makes
the gate open. `getLong` reads the threshold as a signed two's-complement
long, not as an unsigned number.

## Model

| member | source | states |
|---|---|---|
| JavaInts.Wrap | ignite-failure-detect/src/main/java/com/atmosphere/ignite/IgniteFailureDetector.java:48-55 | a long operation yields the one long congruent to the exact result modulo 2^64, and the exact result itself when it fits |
| JavaInts.Sub | ignite-failure-detect/src/main/java/com/atmosphere/ignite/IgniteFailureDetector.java:59 | `a - b` on longs: exact when in range, otherwise shifted by 2^64 up or down |
| JavaInts.SubOne | ignite-failure-detect/src/main/java/com/atmosphere/ignite/IgniteFailureDetector.java:59 | `normalNodes - 1L` wraps only at Long.MIN_VALUE, which becomes Long.MAX_VALUE |
| JavaInts.Unsigned8 | ignite-failure-detect/src/main/java/com/atmosphere/ignite/IgniteFailureDetector.java:48-54 | `b & 0xFF` is in [0, 256) and congruent to the byte modulo 256 |
| JavaInts.ToByte | ignite-failure-detect/src/main/java/com/atmosphere/ignite/IgniteFailureConsole.java:54-61 | the `(byte)` cast keeps the low eight bits |
| JavaInts.ToByteUnsigned8 | ignite-failure-detect/src/main/java/com/atmosphere/ignite/IgniteFailureConsole.java:54-61 | casting `b & 0xFF` back to a byte gives `b` |
| JavaInts.Unsigned64 | ignite-failure-detect/src/main/java/com/atmosphere/ignite/IgniteFailureConsole.java:55-61 | the bit pattern of a long read unsigned is below 2^64, congruent to it, and at most Long.MAX_VALUE exactly for non-negative longs |
| JavaInts.Ushr | ignite-failure-detect/src/main/java/com/atmosphere/ignite/IgniteFailureConsole.java:55-61 | `v >>> n` for 1 <= n < 64 is non-negative and at most Long.MAX_VALUE, and never exceeds the unsigned reading of `v`; n = 0 gives that unsigned reading |
| JavaInts.UshrDivides | ignite-failure-detect/src/main/java/com/atmosphere/ignite/IgniteFailureConsole.java:55-61 | `v >>> n` (1 <= n < 64) is the unsigned reading of `v` divided by 2^n |
| FailureDetector.BigEndian | ignite-failure-detect/src/main/java/com/atmosphere/ignite/IgniteFailureDetector.java:47-56 | the base-256 reading of n bytes is below 2^(8n), so eight bytes give less than 2^64 |
| FailureDetector.BigEndianInjective | ignite-failure-detect/src/main/java/com/atmosphere/ignite/IgniteFailureDetector.java:47-56 | two byte strings of one length with the same big-endian reading are equal |
| FailureDetector.Signed64 | ignite-failure-detect/src/main/java/com/atmosphere/ignite/IgniteFailureDetector.java:47-56 | the two's-complement reading of a 64-bit pattern is congruent to it and negative exactly when the pattern exceeds Long.MAX_VALUE |
| FailureDetector.Assemble | ignite-failure-detect/src/main/java/com/atmosphere/ignite/IgniteFailureDetector.java:48-55 | getLong's shift-and-add expression is negative iff the first byte is, and its low eight bits are the last byte |
| FailureDetector.AssembleExact | ignite-failure-detect/src/main/java/com/atmosphere/ignite/IgniteFailureDetector.java:48-55 | none of getLong's shifts and additions overflows: the value is the sign-extended top byte times 2^56 plus the seven low bytes |
| FailureDetector.AssembleIsTwosComplement | ignite-failure-detect/src/main/java/com/atmosphere/ignite/IgniteFailureDetector.java:47-56 | getLong's arithmetic is the two's-complement reading of the big-endian bytes; its sign is that of the first byte, its low byte is the last |
| FailureDetector.GetLong | ignite-failure-detect/src/main/java/com/atmosphere/ignite/IgniteFailureDetector.java:47-56 | succeeds exactly when `off >= 0` and `off + 8 <= length`, otherwise fails with an out-of-bounds error; the value is the two's-complement big-endian reading of `b[off..off+8]`, negative iff `b[off]` is |
| FailureDetector.GetLongReadsEightBytes | ignite-failure-detect/src/main/java/com/atmosphere/ignite/IgniteFailureDetector.java:47-56 | the result depends only on the eight bytes from `off` |
| FailureDetector.ThresholdIgnoresTrailingBytes | ignite-failure-detect/src/main/java/com/atmosphere/ignite/IgniteFailureDetector.java:42-45 | bytes after the first eight of a payload do not change the threshold |
| FailureDetector.GateConditionsComplementary | ignite-failure-detect/src/main/java/com/atmosphere/ignite/IgniteFailureDetector.java:59-71 | check's wait condition is exactly the negation of reflesh's drain condition |
| FailureDetector.GateOpen | ignite-failure-detect/src/main/java/com/atmosphere/ignite/IgniteFailureDetector.java:59 | reflesh's test `currentNodes >= normalNodes - 1L` holds iff the count is at most one below the threshold, except at threshold Long.MIN_VALUE, where `- 1L` wraps and only Long.MAX_VALUE passes |
| FailureDetector.MustWait | ignite-failure-detect/src/main/java/com/atmosphere/ignite/IgniteFailureDetector.java:71 | check's test `currentNodes < normalNodes - 1L` holds iff the count is more than one below the threshold, except at threshold Long.MIN_VALUE, where every count below Long.MAX_VALUE passes |
| FailureDetector.SmallThresholdKeepsGateOpen | ignite-failure-detect/src/main/java/com/atmosphere/ignite/IgniteFailureDetector.java:36-39 | with a non-negative count, any threshold in [Long.MIN_VALUE + 1, 1] keeps the gate open |
| FailureDetector.NonClientCount | ignite-failure-detect/src/main/java/com/atmosphere/ignite/IgniteFailureDetector.java:84 | the server-member count is at most the topology size |
| FailureDetector.NonClientCountAppend | ignite-failure-detect/src/main/java/com/atmosphere/ignite/IgniteFailureDetector.java:84 | the count of a concatenation is the sum of the counts |
| FailureDetector.NonClientCountAll | ignite-failure-detect/src/main/java/com/atmosphere/ignite/IgniteFailureDetector.java:84 | the count equals the topology size iff no member is a client |
| FailureDetector.NonClientCountNone | ignite-failure-detect/src/main/java/com/atmosphere/ignite/IgniteFailureDetector.java:84 | the count is 0 iff every member is a client |
| FailureDetector.Detector.Allocate | ignite-failure-detect/src/main/java/com/atmosphere/ignite/IgniteFailureDetector.java:19-23 | both counters start at 0 and the registry is empty; the invariant holds |
| FailureDetector.Detector.Create | ignite-failure-detect/src/main/java/com/atmosphere/ignite/IgniteFailureDetector.java:26-35 | construction succeeds iff the watched node exists and holds at least eight bytes; the threshold is then the decoded payload, the count 0, and nothing is registered |
| FailureDetector.Detector.SetNormalNodes | ignite-failure-detect/src/main/java/com/atmosphere/ignite/IgniteFailureDetector.java:42-45 | the threshold becomes the long at offset 0 of the payload; a payload shorter than eight bytes fails and leaves it unchanged; nothing else changes |
| FailureDetector.Detector.Reflesh | ignite-failure-detect/src/main/java/com/atmosphere/ignite/IgniteFailureDetector.java:58-68 | with the gate open, every registered waiter is released once, in registration order, and the registry ends empty; with it closed nothing changes; the counters never change; the invariant (no waiter released twice, registry empty while the gate is open) is restored |
| FailureDetector.Detector.Check | ignite-failure-detect/src/main/java/com/atmosphere/ignite/IgniteFailureDetector.java:70-78 | with the gate open nothing is registered; otherwise exactly one fresh waiter is appended and earlier entries stay; the invariant is kept |
| FailureDetector.Detector.OnThresholdChanged | ignite-failure-detect/src/main/java/com/atmosphere/ignite/IgniteFailureDetector.java:36-39 | a new payload replaces the threshold, then the registry is drained iff the gate is now open; a short payload changes nothing |
| FailureDetector.Detector.OnEvent | ignite-failure-detect/src/main/java/com/atmosphere/ignite/IgniteFailureDetector.java:80-89 | a discovery event sets the count to the snapshot's server members, whatever it was, then drains iff the gate is open; other events change nothing; the listener stays registered |
| ZkStore.LastSlash | ignite-failure-detect/src/main/java/com/atmosphere/ignite/IgniteFailureConsole.java:42 | the index of the last '/', or -1 when there is none |
| ZkStore.ValidPath | ignite-failure-detect/src/main/java/com/atmosphere/ignite/IgniteFailureConsole.java:39-50 | a path the client accepts has no illegal character (NUL, control characters, private-use or Specials code points, or a code point above U+FFFF, which Java holds as a surrogate pair), contains a '/', and unless it is the root its last node name is not empty |
| ZkStore.RefusedPaths | ignite-failure-detect/src/main/java/com/atmosphere/ignite/IgniteFailureConsole.java:39 | the client refuses "/a/.", "/a/..", a path holding U+0001 and a path holding U+1F600, so createPath throws IllegalArgumentException for them |
| ZkStore.PrefixValid | ignite-failure-detect/src/main/java/com/atmosphere/ignite/IgniteFailureConsole.java:42-44 | cutting a valid path just before one of its slashes leaves a path the client accepts, so the recursive call on the parent is legal |
| ZkStore.Parent | ignite-failure-detect/src/main/java/com/atmosphere/ignite/IgniteFailureConsole.java:42 | the parent path of `getPathAndNode` is the proper prefix of the path that ends just before its last '/' when that slash is past index 1, and the root when no '/' follows the first character |
| ZkStore.ParentOfValid | ignite-failure-detect/src/main/java/com/atmosphere/ignite/IgniteFailureConsole.java:42-43 | the parent of a valid non-root path is a shorter valid path that prefixes it up to a '/', and it is the root exactly when its length is at most 1 |
| ZkStore.Chain | ignite-failure-detect/src/main/java/com/atmosphere/ignite/IgniteFailureConsole.java:42-45 | the ancestors of a path below the root, each the parent of the next, ending with the path itself |
| ZkStore.Pending | ignite-failure-detect/src/main/java/com/atmosphere/ignite/IgniteFailureConsole.java:38-51 | the nodes a recursive create adds are absent, no longer than the path, end with the path, and are empty exactly when the path is the root or present |
| ZkStore.PendingValid | ignite-failure-detect/src/main/java/com/atmosphere/ignite/IgniteFailureConsole.java:42-45 | every pending node is a valid path other than the root |
| ZkStore.PendingParentsFirst | ignite-failure-detect/src/main/java/com/atmosphere/ignite/IgniteFailureConsole.java:44-50 | the first pending node hangs under the root or a present node, and every later one under the node created just before it |
| ZkStore.PendingOnChain | ignite-failure-detect/src/main/java/com/atmosphere/ignite/IgniteFailureConsole.java:42-50 | every node a recursive create adds lies on the path's ancestor chain |
| ZkStore.MissingWithin | ignite-failure-detect/src/main/java/com/atmosphere/ignite/IgniteFailureConsole.java:38-51 | the absent members of a chain are members of it and absent from the store |
| ZkStore.Store.Create | ignite-failure-detect/src/main/java/com/atmosphere/ignite/IgniteFailureConsole.java:46-50 | a node is created only under a present parent, absent before, with the given payload, and is logged last in the creation order |
| ZkStore.Store.Exists | ignite-failure-detect/src/main/java/com/atmosphere/ignite/IgniteFailureConsole.java:39 | `checkExists().forPath(p) != null` holds iff the node is present, and in a valid store a present node has a valid path and, unless it is the root, a present parent |
| ZkStore.Store.ChainPresent | ignite-failure-detect/src/main/java/com/atmosphere/ignite/IgniteFailureConsole.java:39-41 | in a valid store, a present node's whole ancestor chain is present |
| ZkStore.Store.PendingIsMissingChain | ignite-failure-detect/src/main/java/com/atmosphere/ignite/IgniteFailureConsole.java:38-51 | in a valid store the nodes a recursive create adds are exactly the absent members of the path's ancestor chain, in chain order |
| FailureConsole.Encode | ignite-failure-detect/src/main/java/com/atmosphere/ignite/IgniteFailureConsole.java:53-62 | putLong writes eight bytes for any long; what they hold is stated by EncodeDigits and EncodeDecodes |
| FailureConsole.ByteOf | ignite-failure-detect/src/main/java/com/atmosphere/ignite/IgniteFailureConsole.java:54-61 | `(byte) (val >>> shift)` is the low eight bits of the shifted long |
| FailureConsole.EncodeDigits | ignite-failure-detect/src/main/java/com/atmosphere/ignite/IgniteFailureConsole.java:53-62 | byte `7-i` is digit i in base 256 of the long's unsigned reading, and the first byte is the top digit cast to a byte |
| FailureConsole.EncodeAssembles | ignite-failure-detect/src/main/java/com/atmosphere/ignite/IgniteFailureConsole.java:53-62 | getLong's arithmetic on putLong's eight bytes rebuilds the long |
| FailureConsole.EncodeDecodes | ignite-failure-detect/src/main/java/com/atmosphere/ignite/IgniteFailureConsole.java:53-62 | for every long v, the detector's getLong of the bytes putLong writes for v is v |
| FailureConsole.DecodeEncodes | ignite-failure-detect/src/main/java/com/atmosphere/ignite/IgniteFailureConsole.java:53-62 | re-encoding the long decoded from any eight bytes gives back those bytes, so the codec is a bijection |
| FailureConsole.PutLong | ignite-failure-detect/src/main/java/com/atmosphere/ignite/IgniteFailureConsole.java:53-62 | the eight elements from `off` become the encoding of the long, and no other element of the array changes |
| FailureConsole.CreatesPendingStep | ignite-failure-detect/src/main/java/com/atmosphere/ignite/IgniteFailureConsole.java:42-50 | creating a path right after its parent's pending nodes completes the path's pending nodes |
| FailureConsole.CreatesOnlyChain | ignite-failure-detect/src/main/java/com/atmosphere/ignite/IgniteFailureConsole.java:38-51 | every node createPath adds, and every entry it appends to the creation order, lies on the path's ancestor chain |
| FailureConsole.CreatePath | ignite-failure-detect/src/main/java/com/atmosphere/ignite/IgniteFailureConsole.java:38-51 | a malformed path fails and changes nothing; an existing path changes nothing; otherwise the pending nodes are created, parents first and in that order, and only the path itself gets the data when `withData` holds; existing nodes keep their data, the path ends up present, and the store stays valid |
| FailureConsole.Invoke | ignite-failure-detect/src/main/java/com/atmosphere/ignite/IgniteFailureConsole.java:31-36 | a new watched node holds the eight-byte encoding of the threshold, which the detector decodes back to it; an existing node keeps its old payload, so a second run is a no-op whatever its count |
| FailureConsole.Run | ignite-failure-detect/src/main/java/com/atmosphere/ignite/IgniteFailureConsole.java:10-29 | status 9 iff the arguments are null or fewer than three; 8 iff the count does not parse; 7 iff it parses but the path is refused; 0 otherwise; the store changes only with status 0 |

## Left out

- Threads, `o.wait(timeout)`, timeouts and interruption are not modelled. `check` is modelled up to the registration of its waiter, and `notify` as moving the waiter from `pausing` to a `released` log. The race between the unsynchronized counters and the lock on `pausing` is not modelled either.
- FailureDetector.Detector.Reflesh and FailureDetector.Detector.Check model the evident intent of `o.notify()` and `o.wait(timeout)`. The Java code calls both without holding `o`'s monitor, so it would throw IllegalMonitorStateException at IgniteFailureDetector.java:63 and :76. The model does not capture that throw.
- The counters are `static` in the source, so every detector in a JVM shares them. The model has one `Detector` that owns them.
- Curator and ZooKeeper are replaced by the in-memory `Store`. This covers client creation, retry policy, connection, the `TreeCache` and its listener registration. Network failures are not modelled. In `invoke` the client is created but never started; the model assumes a usable store.
- The threshold listener reads `event.getData().getData()` for every cache event. Event kinds, a null payload and a deleted node are not modelled. The listener is modelled as receiving the new payload bytes.
- Ignite's event subscription, the `IgniteEx` cast and the event-type filter are left out. A discovery event is modelled as a snapshot of members with an `isClient` flag. All other events are one `OtherEvent` case.
- FailureDetector.Detector.OnEvent requires a snapshot of at most Long.MAX_VALUE members, because the stream's `count()` is a long.
- ZkStore.ValidPath: the path rules are those of ZooKeeper's client-side check (absolute, no empty or "."/".." node name, no trailing slash, no illegal character, code points above U+FFFF counted as the surrogates Java stores them as). Server-side refusals, such as a path under an ephemeral node or beyond the server's length limit, are not modelled.
- Curator fills a node created without data with a client-wide default payload. The model records such nodes as having no payload.
- `System.out`/`System.err` output and `System.exit` are left out. `Run` returns the status that `main` would pass to `System.exit`.
- `Long.parseLong` is a parameter `string -> Option<Long>`, with None for NumberFormatException. Its own parsing rules are not modelled.
- FailureConsole.Run gives status 7 only for a refused path, because a refused path is the only failure the modelled store can produce. Connection and server errors would also give 7 in the source.
