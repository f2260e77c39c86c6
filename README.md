# DEFEX path-rule engine, modelled in Dafny

DEFEX is Samsung's kernel protection module. Its rules engine
(`defex_rules_proc.c`) keeps a packed policy tree in one byte buffer,
`defex_packed_rules`. Each node (`rule_item_struct`) has:

- a name;
- a feature mask;
- a SHA-256 digest;
- a byte offset to its first child (`next_level`);
- a byte offset to its next sibling (`next_file`).

An offset of 0 means "none". The hooks ask `rules_lookup(path, attribute, file)` whether a path carries a protection attribute (safe place, PED exception, immutable open/write). The answer is 0, 1 or `DEFEX_INTEGRITY_FAIL`.

This project models:

- the lookup: `lookup_dir`, `lookup_tree` and `rules_lookup`;
- the per-file integrity gate: `defex_check_integrity` and `defex_integrity_default`;
- the loaders: `do_load_rules`, `load_rules_late` and `defex_load_rules`;
- the mode state: `bootmode_setup`, `check_system_mount` and `check_rules_ready`.

The project has seven modules:

- `ByteStrings` (`bytes.dfy`): bytes, C strings, and kernel `strncmp`/`memcmp`/`memcpy` stated over sequences.
- `RuleTree` (`rule_tree.dfy`): the build switches, the node layout over the buffer, and `lookup_dir`'s sibling scan as a function with its meaning.
- `Integrity` (`integrity.dfy`):
  - the hash check, as a function and as the imperative read loop;
  - the exempt path.
- `PathMatch` (`path_match.dfy`):
  - the cut of a path into `/`-separated segments;
  - `lookup_tree`'s walk down the tree;
  - where the walk stops.
- `Loader` (`loader.dfy`):
  - the boot load;
  - the late-load state machine;
  - the boot panic decision.
- `Lookup` (`lookup.dfy`):
  - the verdict at the node where the walk stops;
  - the unloaded-rules path;
  - the mount probe;
  - system-root stripping;
  - `rules_lookup`.
- `Engine` (`engine.dfy`): class `Defex`. Its fields are `defex_packed_rules` (an `array<byte>`), `is_recovery`, `mount_system_root` and the statics of `load_rules_late`. One method per entry point updates the object step by step. Each method is proved equal to the functions above.

Undefined behaviour in the C code appears in the functions as an explicit outcome:

- a node or name read past the end of the buffer;
- a sibling chain longer than the buffer;
- `strncmp` on a NULL target.

The outcome is `Fault`, `OutOfBuffer` or `None`, depending on the function. The methods require that this outcome does not occur.

The code returns at the *first* (shallowest) node of the path that shares a bit with the attribute. A deeper rule is never consulted once a parent shares a bit, and an ancestor's bits are never applied to a deeper segment unless the ancestor itself stopped the walk. So a deeper rule never overrides a shallower one that shares a bit with the attribute: the first sharing node on the path decides, not the longest match (`Lookup.LoadedAnswerAtFirstSharing`).

## Model

| member | source | states |
|---|---|---|
| ByteStrings.StrNCmpPrefix | security/samsung/defex_lsm/core/defex_rules_proc.c:428-432 | `strncmp(a, b, strlen(b))` against a NUL-free `b` is zero exactly when `b` is a prefix of `a` |
| ByteStrings.StrNCmpWhole | security/samsung/defex_lsm/core/defex_rules_proc.c:198-203 | `strncmp` over `strlen(a) + 1` bytes, so the terminator is included, is zero exactly when the two C strings are equal |
| ByteStrings.MemCmpEqual | security/samsung/defex_lsm/core/defex_rules_proc.c:351 | `memcmp` over the full common length is zero exactly when the byte sequences are equal |
| RuleTree.NodeAt | security/samsung/defex_lsm/core/defex_rules_proc.c:344-353 | a node header is readable exactly when it lies inside the buffer; it has a 32-byte digest; a name that can be read has `size` bytes |
| RuleTree.TreeOf | security/samsung/defex_lsm/core/defex_rules_proc.c:344-353 | the node view of the buffer (`GET_ITEM_PTR`): every node carries a full digest and a name of its stated size |
| RuleTree.Accepts | security/samsung/defex_lsm/core/defex_rules_proc.c:349-351 | a sibling is accepted exactly when it is a directory or a file of the requested mode, its `size` is the segment's length and its name bytes are the segment; the test is undefined only when the name cannot be read |
| RuleTree.ScanSiblings | security/samsung/defex_lsm/core/defex_rules_proc.c:345-356 | whatever the `next_file` scan returns is a sibling the test accepts |
| RuleTree.LookupDirSpec | security/samsung/defex_lsm/core/defex_rules_proc.c:339-357 | a probe that finds something finds a child that `lookup_dir`'s test accepts: a directory of either mode, or a file of the requested mode, whose size and name equal the segment |
| RuleTree.ScanFindsFirstAccepted | security/samsung/defex_lsm/core/defex_rules_proc.c:345-356 | the scan returns the first accepted sibling in `next_file` order, and reports no match exactly when no sibling on the chain is accepted |
| RuleTree.FindNode | security/samsung/defex_lsm/core/defex_rules_proc.c:394-396 | the node found is accepted in the requested mode or in the other one |
| RuleTree.FindNodePrefersMode | security/samsung/defex_lsm/core/defex_rules_proc.c:394-396 | when a child is accepted in the boot mode, the first one is taken; only when none is does the other mode decide |
| RuleTree.DirectoryEitherMode | security/samsung/defex_lsm/core/defex_rules_proc.c:347-348 | a directory matches whatever the recovery bit says |
| Integrity.ReadFrom | security/samsung/defex_lsm/core/defex_rules_proc.c:161-171 | the content read from an offset ends inside the file |
| Integrity.CheckIntegrity | security/samsung/defex_lsm/core/defex_rules_proc.c:111-196 | an all-zero stored digest gives 0; otherwise an error handle or a failed allocation or init gives -1 |
| Integrity.CheckIntegrityMeaning | security/samsung/defex_lsm/core/defex_rules_proc.c:111-196 | the check is 0 exactly when the stored digest is all zero or the whole file hashes to it; an error handle, a failed allocation or init, a failed read, or a failed update or final step gives -1 |
| Integrity.ZeroDigestTest | security/samsung/defex_lsm/core/defex_rules_proc.c:123-124 | the `memcmp` against `buff_zero` is an all-zero test of the stored digest |
| Integrity.DefexCheckIntegrity | security/samsung/defex_lsm/core/defex_rules_proc.c:111-196 | the read loop reads each chunk at the running total of earlier chunks and feeds the digest exactly the file's content; its result is the check above |
| Integrity.IntegrityDefault | security/samsung/defex_lsm/core/defex_rules_proc.c:198-203 | 0 exactly when the path is `/system/bin/install-recovery.sh` |
| Integrity.ExemptIsCString | security/samsung/defex_lsm/core/defex_rules_proc.c:200 | the exempt path holds 31 bytes and no NUL |
| PathMatch.Segments | security/samsung/defex_lsm/core/defex_rules_proc.c:386-391 | the `strchr` cut gives at least one segment (an empty one for an empty rest) |
| PathMatch.SegmentsHaveNoSlash | security/samsung/defex_lsm/core/defex_rules_proc.c:386-390 | no segment contains a `/` |
| PathMatch.SegmentsJoin | security/samsung/defex_lsm/core/defex_rules_proc.c:386-419 | the segments joined with `/` give back the path, or the path minus one trailing `/` |
| PathMatch.SegmentsTrailingSlash | security/samsung/defex_lsm/core/defex_rules_proc.c:386-391 | one extra `/` at the end of a path adds no segment |
| PathMatch.WalkTrailingSlash | security/samsung/defex_lsm/core/defex_rules_proc.c:385-420 | the walk of a path and of the same path with a trailing `/` is the same walk |
| PathMatch.Walk | security/samsung/defex_lsm/core/defex_rules_proc.c:385-420 | the walk, whose search is the two `lookup_dir` calls of 394-396 and whose stop test is `feature_type & attribute` (399), stops only at a node that shares a bit with the attribute |
| PathMatch.WalkFollowsSegments | security/samsung/defex_lsm/core/defex_rules_proc.c:385-420 | the byte-pointer loop visits exactly the path's segments in order, and knows which one is last |
| PathMatch.TrailOf | security/samsung/defex_lsm/core/defex_rules_proc.c:392-398 | each trail node is found among the children of the one before; the trail ends at an empty segment, at a segment with no match, or at a read out of the buffer |
| PathMatch.SegmentsStopAtFirstSharing | security/samsung/defex_lsm/core/defex_rules_proc.c:399-419 | the segment walk stops at the first trail node that shares a bit, and nowhere else |
| PathMatch.SegmentsStopNowhere | security/samsung/defex_lsm/core/defex_rules_proc.c:397-421 | when no trail node shares a bit, the walk finds nothing, or faults where the trail does |
| PathMatch.WalkStopsAtFirstSharing | security/samsung/defex_lsm/core/defex_rules_proc.c:385-421 | the whole walk stops at the first sharing node, with `last` exactly when its segment is the final one; otherwise there is no match |
| Loader.DoLoad | security/samsung/defex_lsm/core/defex_rules_proc.c:277-335 | the boot load always leaves a buffer of full capacity |
| Loader.DoLoadMeaning | security/samsung/defex_lsm/core/defex_rules_proc.c:283-334 | on success the verified (or read) rules sit at the front of a cleared buffer; any failure leaves the buffer all zero; kernel-only recovery always gives 0; otherwise an unopenable or unusable file (bad size, failed allocation, empty read) gives -1, a bad signature gives the signature check's status, verified rules outside 0..capacity give -1, and (in the bounded copy) an unsigned read larger than the buffer gives -1 |
| Loader.UnsignedCopyOverflows | security/samsung/defex_lsm/core/defex_rules_proc.c:294-322 | without `DEFEX_SIGN_ENABLE`, a policy file of capacity + 1 bytes passes the size check and is copied past the buffer |
| Loader.DoLoadAsWritten | security/samsung/defex_lsm/core/defex_rules_proc.c:277-335 | the code as written writes past the buffer exactly when the build is unsigned and a usable file read more bytes than the buffer holds; otherwise the buffer keeps its capacity |
| Loader.DoLoadAgreesWhereDefined | security/samsung/defex_lsm/core/defex_rules_proc.c:308-322 | the code as written (`DoLoadAsWritten`) and the bounded copy agree wherever the former stays in bounds; signed builds always stay in bounds |
| Loader.BootLoad | security/samsung/defex_lsm/core/defex_rules_proc.c:439-448 | the buffer keeps its size; without RAMDISK or with an unlocked boot nothing happens; a panic needs a locked, non-debug, non-kernel-only RAMDISK boot |
| Loader.BootPanicsExactly | security/samsung/defex_lsm/core/defex_rules_proc.c:439-448 | a panic happens exactly when the boot state is locked, neither debug nor kernel-only is set, and the load (the bounded `Loader.DoLoad`) failed |
| Loader.Elapsed | security/samsung/defex_lsm/core/defex_rules_proc.c:239 | `cur_time - start_time` as unsigned long, including the wrap when the start lies after the current time |
| Loader.LateLoad | security/samsung/defex_lsm/core/defex_rules_proc.c:210-274 | the result is -1, 0 or 1; the buffer keeps its size; the statics stay unsigned longs and `in_progress` ends as it began; a non-zero result needs the lock, no load in progress and a new second |
| Loader.LateLoadMeaning | security/samsung/defex_lsm/core/defex_rules_proc.c:210-274 | a busy lock or a load in progress changes nothing; `in_progress` ends as it began; 1 exactly when a usable file was read in a new second within the budget, and then `min(read, capacity)` bytes of it lie over the front of the buffer with the rest unchanged; any other result leaves the buffer alone |
| Loader.LateLoadOncePerSecond | security/samsung/defex_lsm/core/defex_rules_proc.c:236-237 | a second try in the same second does nothing |
| Loader.LateLoadBudget | security/samsung/defex_lsm/core/defex_rules_proc.c:239-242 | more than 30 seconds after the first try gives -1 without a load; exactly 30 seconds still loads |
| Loader.LateLoadFirstTryWrap | security/samsung/defex_lsm/core/defex_rules_proc.c:216-242 | when the second clock read of the first try is one second after the first read, the unsigned difference wraps and the try gives up at once |
| Lookup.BootmodeStep | security/samsung/defex_lsm/core/defex_rules_proc.c:62-69 | recovery mode is set exactly when the argument's first character is `2`; otherwise the mode is kept |
| Lookup.MountStep | security/samsung/defex_lsm/core/defex_rules_proc.c:79-108 | the first call probes: either recovery binary sets recovery mode, and `/system_root` decides the answer; later calls change nothing and answer from the recorded value |
| Lookup.MountProbedOnce | security/samsung/defex_lsm/core/defex_rules_proc.c:84 | after the first call, probe results are ignored |
| Lookup.CheckRulesReady | security/samsung/defex_lsm/core/defex_rules_proc.c:72-77 | 1 exactly when the root's `data_size` is non-zero, else 0 |
| Lookup.ClearedBufferNotReady | security/samsung/defex_lsm/core/defex_rules_proc.c:283 | a zeroed buffer, which a failed boot load leaves, holds no rules |
| Lookup.Decide | security/samsung/defex_lsm/core/defex_rules_proc.c:399-414 | `DEFEX_INTEGRITY_FAIL` only with the gate built in, a file node, a handle and a path other than the exempt one; 0 only for a directory asked about with an immutable attribute at its last segment |
| Lookup.IntegrityFailExactly | security/samsung/defex_lsm/core/defex_rules_proc.c:400-406 | `DEFEX_INTEGRITY_FAIL` exactly when all of these hold: the gate is built in; the node is a file; a handle was passed; the path is not the exempt one; the digest is not zero; the whole content could not be read and hashed to it, a failed read or crypto step counting as a mismatch |
| Lookup.LoadedAnswer | security/samsung/defex_lsm/core/defex_rules_proc.c:385-421 | over loaded rules, `DEFEX_INTEGRITY_FAIL` only with the gate built in, a handle and a non-exempt path |
| Lookup.LoadedAnswerAtFirstSharing | security/samsung/defex_lsm/core/defex_rules_proc.c:385-421 | loaded rules are answered at the path's first trail node sharing a bit; a trail without one gives 0 |
| Lookup.ImmutableDirectory | security/samsung/defex_lsm/core/defex_rules_proc.c:408-414 | for an immutable attribute stopping at a directory: 0 when its segment is the last (trailing `/` included), 1 when more path follows |
| Lookup.TrailingSlashIgnored | security/samsung/defex_lsm/core/defex_rules_proc.c:385-421 | one trailing `/` does not change the answer, for any path other than the exempt one |
| Lookup.EmptySegmentEndsWalk | security/samsung/defex_lsm/core/defex_rules_proc.c:391-393 | nothing after an empty segment matters |
| Lookup.EmptyFirstSegmentDenied | security/samsung/defex_lsm/core/defex_rules_proc.c:391-393 | `/` and paths starting with `//` are denied |
| Lookup.TryToLoad | security/samsung/defex_lsm/core/defex_rules_proc.c:369-383 | the retry from `try_to_load` touches only the buffer and the late-load statics, and keeps the buffer's size |
| Lookup.LookupTreeSpec | security/samsung/defex_lsm/core/defex_rules_proc.c:359-422 | a NULL path, or one not starting with `/`, gives 0 and changes nothing |
| Lookup.UnloadedVerdict | security/samsung/defex_lsm/core/defex_rules_proc.c:375-382 | with rules missing, 1 only for a ped-exception or safe-place request, and only when the late load returned 0 or in recovery mode |
| Lookup.UnloadedRules | security/samsung/defex_lsm/core/defex_rules_proc.c:371-383 | unloaded rules deny everything without kernel-only. With it, a late load that fails lets through only ped-exception and safe-place requests, and only when it returned 0 or in recovery mode |
| Lookup.LateLoadRestartsOnce | security/samsung/defex_lsm/core/defex_rules_proc.c:373-376 | within one second (one clock value for the whole lookup), a successful late load restarts the lookup once: ready rules are walked, and rules still not ready meet a no-op retry in the same second |
| Lookup.StripSystemRoot | security/samsung/defex_lsm/core/defex_rules_proc.c:428-432 | when mounted, exactly a `/system_root` prefix (prefix test only) is cut off; otherwise the target is kept |
| Lookup.RulesLookupSpec | security/samsung/defex_lsm/core/defex_rules_proc.c:424-437 | without an enforcing feature the answer is 0 and nothing changes |
| Lookup.SystemRootStripped | security/samsung/defex_lsm/core/defex_rules_proc.c:428-434 | with the overlay, `/system_root/a/b` is looked up as `/a/b` |
| Lookup.SystemRootPrefixOnly | security/samsung/defex_lsm/core/defex_rules_proc.c:428-434 | with the overlay, `/system_rootX` becomes `X` and is denied |
| Lookup.NoOverlayNoStrip | security/samsung/defex_lsm/core/defex_rules_proc.c:428-434 | without the overlay, the target is looked up unchanged |
| Engine.Clear | security/samsung/defex_lsm/core/defex_rules_proc.c:283 | `memset` leaves the buffer all zero |
| Engine.Copy | security/samsung/defex_lsm/core/defex_rules_proc.c:266 | `memcpy` lays the source over the front of the buffer and keeps the rest |
| Engine.LookupDir | security/samsung/defex_lsm/core/defex_rules_proc.c:339-357 | the do-while over sibling offsets returns what `RuleTree.LookupDirSpec` says |
| Engine.DecideAt | security/samsung/defex_lsm/core/defex_rules_proc.c:399-414 | the integrity and immutable-directory tests at the stopping node give `Lookup.Decide` |
| Engine.LookupLoaded | security/samsung/defex_lsm/core/defex_rules_proc.c:385-421 | the segment loop over loaded rules gives `Lookup.LoadedAnswer` |
| Engine.Defex.constructor | security/samsung/defex_lsm/core/defex_rules_proc.c:39-46 | boot state: the buffer holds its static image (zeros in a RAMDISK build, 256 KiB under kernel-only), normal mode, mount not probed, no late load yet; only buildable switch combinations are accepted |
| Engine.Defex.BootmodeSetup | security/samsung/defex_lsm/core/defex_rules_proc.c:62-69 | returns 0 and sets the mode as `Lookup.BootmodeStep` says |
| Engine.Defex.CheckSystemMount | security/samsung/defex_lsm/core/defex_rules_proc.c:79-108 | new state and answer as `Lookup.MountStep` says |
| Engine.Defex.LookupTree | security/samsung/defex_lsm/core/defex_rules_proc.c:359-422 | verdict and new state as `Lookup.LookupTreeSpec` says, including late loads and restarts |
| Engine.Defex.RulesLookup | security/samsung/defex_lsm/core/defex_rules_proc.c:424-437 | verdict and new state as `Lookup.RulesLookupSpec` says |
| Engine.Defex.LoadRulesLate | security/samsung/defex_lsm/core/defex_rules_proc.c:210-274 | result, buffer and statics as `Loader.LateLoad` says |
| Engine.Defex.DoLoadRules | security/samsung/defex_lsm/core/defex_rules_proc.c:277-335 | result and buffer as `Loader.DoLoad` says (the bounded copy) |
| Engine.Defex.DefexLoadRules | security/samsung/defex_lsm/core/defex_rules_proc.c:439-448 | panic outcome and buffer as `Loader.BootLoad` says (built on the bounded copy) |

## Left out

- SHA-256 and the `crypto_shash_*` calls: the digest is an abstract function of the bytes fed to it. Allocation, init, update and final are success flags; update succeeds or fails for all chunks alike.
- `defex_rules_signature_check` is an oracle input: a status and the verified length it writes back. The verified length is assumed to be at most the bytes read.
- File plumbing (`local_fopen`, `local_fread`, `i_size_read`, `vmalloc`, the frees and closes). The file is an input: whether it opens, its size, whether the buffer is allocated, what the read returns, and the bytes read. `loff_t` to `int` truncation of the size is not modelled; the size arrives as an `int`.
- The spinlock and the atomic `in_progress`: modelled as a sequential "lock busy" input and a flag. Concurrent lookups are not modelled.
- `get_seconds()` is an input. Inside one lookup, both readings that `load_rules_late` takes are given the same value.
- Lookup.TryToLoad: the whole lookup sees one clock value, restarted attempts included. In the source, `goto try_to_load` (375-377) runs whenever `load_rules_late` returns a positive value, so when the clock passes a second boundary between attempts and the loaded rules are still not ready (for example an all-zero `/dpolicy`), the lookup can reload and restart again, up to the 30-second budget, and then end with -1. The model does not capture these repeated restarts.
- Lookup.LateLoadRestartsOnce: "once" holds within one second only; see the line above.
- Integrity.DefexCheckIntegrity: the target file is assumed finite (`Integrity.FileOk`): every non-empty read ends inside a fixed size. The loop at 161-171 has no such bound and keeps reading while `local_fread` returns data; a file that never reaches its end is not modelled. The same holds for Integrity.CheckIntegrity and Integrity.CheckIntegrityMeaning.
- Loader.BootLoad: it is built on the bounded `Loader.DoLoad`. Without `DEFEX_SIGN_ENABLE`, a blob larger than the buffer makes the model fail the load (and panic in a locked, non-debug, non-kernel-only boot), whereas the source at 318-322 writes past the buffer and returns 0. `Loader.DoLoadAsWritten` models that case.
- Loader.BootPanicsExactly: states the panic for the bounded load; see the line above.
- Engine.Defex.DefexLoadRules: calls the bounded `Engine.Defex.DoLoadRules`; see the line above.
- Engine.Defex.DoLoadRules: the bounded copy, not the overflowing one of 318-322 (see "## Findings").
- Logging, `__setup` registration and kernel-version branches are left out. `panic` is an outcome flag.
- The contents of `defex_packed_rules.inc` and the header definitions are not visible. `rule_item_struct`'s field positions and widths are a layout parameter (little-endian). The feature bits are assumed distinct single bits (1, 2, 8, 32, 128, 256).
- `DEFEX_INTEGRITY_FAIL` is a distinct verdict; its numeric value is in a header that is not part of this model.
- RuleTree.ScanSiblings: a sibling chain that has not ended after as many links as the buffer has bytes is treated as malformed. A chain that ends visits distinct in-buffer offsets, so this bound is never reached by a chain that ends.
- Lookup.Query: the attribute is a non-negative integer; negative `int` attributes are not modelled.
- The `!base` tests in `check_rules_ready` and `lookup_dir` are always false, because `base` is the buffer's address or a matched node; they are not modelled.
- Engine.LookupDir and Engine.LookupLoaded read nodes through the node view `RuleTree.TreeOf` of the buffer instead of raw pointer arithmetic on the array.
- Lookup.LookupTreeSpec: a buffer shorter than one node header is treated as undefined behaviour.

## Findings

| source | as written | input that shows it | evidently intended | confidence | as-written member | corrected member |
|---|---|---|---|---|---|---|
| security/samsung/defex_lsm/core/defex_rules_proc.c:294-322 | without `DEFEX_SIGN_ENABLE`, `res = 0` and `memcpy(defex_packed_rules, data_buff, rules_size)` run with `rules_size` up to twice `sizeof(defex_packed_rules)` | a policy file of capacity + 1 bytes, read in full | reject (or bound) a read larger than the buffer, as the signed branch does at 310-311 | not executed | Loader.UnsignedCopyOverflows | Loader.DoLoadMeaning |
