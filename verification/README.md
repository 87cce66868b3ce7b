# Redis core models

A Dafny model of the parts of the vendored Redis sources (`project/redis/backend/redis-src/src`)
that are real algorithms and protocols, with proofs of what they promise. Check everything with
`dafny verify dfyconfig.toml`.

- **Append-only file** (`AofProtocol`, `AofRecovery`, `AofManifest`, `ManifestText`,
  `ManifestNames`, `AofFlush`, `AofFeed`, `AofServer`, `AofOutcomes`, `AofTidy`, `AofInstance`). The log format and its loader on truncated files; the
  manifest and its text form; the flush with its short writes; and a state machine of feeding,
  flushing, rewriting, history deletion, crash and restart. The main theorem,
  `AofServer.EveryRunReplays`, says that replay gives the live dataset in every reachable state, and
  `AofTidy.EveryFileListed` that no file is left behind unlisted.
  A dataset is its history of (database, command) pairs, so two datasets are equal only if
  exactly the same writes were done in the same order.
- **ACL selectors** (`AclRules`, `Acl`, `AclOps`, `AclSelector`). Every rule changes a bitmap, the allowed
  first arguments and a rule string; replaying the string reproduces the rest, so the panic in
  the self-check is unreachable as long as no first argument needs quotes.
- **CRC64** (`Words`, `Crc64`, `CrcCheck`, `DumpPayload`). Bit by bit, slice-by-8 little- and big-endian, and
  the DUMP checksum. Machine words are sequences of 64 bits.
- **Blocked clients** (`AdList`, `BlockedIndex`, `Blocked`). The heap-allocated doubly linked
  list, and the two-way index between clients and keys on top of its sequence meaning.
- **Background jobs** (`Bio`). Interleavings of a worker, submitting and draining threads and the
  event loop.
- **Bit operations** (`Bitmap`, `Bitfield`, `BitfieldOverflow`, `BitfieldCommand`, `BitCount`,
  `BitRange`, `BitPos`, `BitOp`). Each against its specification on a zero-padded bit sequence.
- **Hash slots** (`HashSlot`). Slot inference from a glob pattern.

`Wrappers`, `Decimal` and `Sds` hold option types, decimal text and the quoting of `sds.c`.

Where the code does not keep what one would expect of it, the code is modelled as it is, a lemma
shows the failing input and another gives the exact condition: the missing O_APPEND of a new INCR
file, the directory sync that fails after the manifest was renamed, a failed flush before a
rotation, the two cuts a restart does not repair, quotes in manifest names and in ACL first
arguments, wake-ups with two draining threads, saturation of far-away signed SET values, and a
BITFIELD that grows a string while all its operations fail.

`AofServer.Safe` takes these steps out of a run, each by a condition on the state and the step: data
written behind a gap; a new BASE whose manifest is renamed but not synced; a rotation that leaves
data in the buffer; a crash inside a command of a transaction; a crash inside any command or
transaction while the manifest on disk is ahead of the server; a command right after a cut
annotation; and a restart if the manifest cannot be read because of a quote. A rotation whose
directory sync fails, and a crash inside an annotation, are part of the runs.

Modelling assumptions: a file is its bytes and survives a crash up to a prefix of the open INCR
file; closed files survive whole; a file name has at most 255 bytes; `aof-load-truncated` is on, as by
default, wherever a server restarts; unlinking in the background is immediate; the command table does
not change during a run, ACL names are lower-case words and command ids are distinct and below the
reserved bit, as the command registration ensures; the command of a served client, when it runs again, may
signal keys and block the same client but does not touch other clients; signals wake at least one
waiter and waits may end spuriously.

## Model

| member | source | states |
|---|---|---|
| AofProtocol.CatCommand | project/redis/backend/redis-src/src/aof.c:1256-1279 | Appending a command to the buffer appends exactly its encoding, for arbitrary binary arguments; the encoding is the one `LoadPrefix` reads back. |
| AofProtocol.ParseArgs | project/redis/backend/redis-src/src/aof.c:1487-1523 | The argument loop reads exactly what the recursive reader reads, including every format error and every short read. |
| AofProtocol.LoadSingleFile | project/redis/backend/redis-src/src/aof.c:1457-1634 | The loader loop (annotations, MULTI/EXEC queueing with nested MULTI and stray EXEC ignored, unknown commands, truncation with and without `aof-load-truncated`) computes the reference loader on every byte sequence; what that loader does is stated on logs by the rows that follow. |
| AofProtocol.LoadPrefix | project/redis/backend/redis-src/src/aof.c:1457-1619 | For every log of commands, transactions and timestamp annotations and every byte prefix of its encoding: the loader runs exactly the commands wholly inside the prefix, in order, drops an unfinished MULTI, and reports exactly the offset to truncate at. |
| AofProtocol.LoadStrict | project/redis/backend/redis-src/src/aof.c:1589-1619 | With `aof-load-truncated` off, every byte prefix of every log runs the same commands; it fails, and leaves the file as long as it was, if and only if it ends inside a command or a transaction, which is when the option being on reports a truncation. |
| AofProtocol.LoadUnknown | project/redis/backend/redis-src/src/aof.c:1526-1534 | After any log, a command that is not in the table fails the load with exactly the commands before it run, whatever follows and whether truncation is allowed or not. |
| AofProtocol.LoadGarbage | project/redis/backend/redis-src/src/aof.c:1481-1481 | The same for bytes that start neither an annotation nor a command. |
| AofProtocol.LoadMisread | project/redis/backend/redis-src/src/aof.c:1496-1506 | The same for a command in which, at any argument, something other than a length stands. |
| AofProtocol.LoadNoArguments | project/redis/backend/redis-src/src/aof.c:1483-1484 | The same for a command that announces no arguments. |
| AofProtocol.EncodeExample | project/redis/backend/redis-src/src/aof.c:1256-1279 | Known answer: the bytes of `GET a` in the log. |
| AofRecovery.LoadWhole | project/redis/backend/redis-src/src/aof.c:1561-1580 | The full encoding of any log round-trips: everything outside an unfinished MULTI is executed. |
| AofRecovery.RestartSettles | project/redis/backend/redis-src/src/aof.c:1561-1619 | After a crash and the truncating reload, the file is again the encoding of a settled prefix of the log, unless the cut is one of the two damaging ones. |
| AofRecovery.CutAnnotationBreaks | project/redis/backend/redis-src/src/aof.c:1473-1482 | A cut inside a timestamp annotation outside a transaction is taken for a clean end of file; a command written right after it makes the file unloadable. |
| AofRecovery.NoteRepairs | project/redis/backend/redis-src/src/aof.c:1473-1482 | With timestamps on, the first thing written after a restart is an annotation: it joins the cut one on one line, the loader skips both, and nothing is lost. |
| AofRecovery.CutTransactionExact | project/redis/backend/redis-src/src/aof.c:1566-1619 | A cut inside a command of an open MULTI leaves the MULTI in the file: if the units written next hold no EXEC, the second restart loses all of them; if they hold one, it runs them after exactly the commands the cut transaction had queued, which the first restart had dropped. |
| AofRecovery.WritesSurviveRestart | project/redis/backend/redis-src/src/aof.c:1457-1619 | Crash, restart, write any units with or without annotations and transactions, restart: the second load runs the commands of the first followed by the new ones if and only if the cut was not damaging, or it was inside an annotation and nothing or another annotation comes next, or it was inside a command of a transaction that had queued nothing and an EXEC follows, or no command follows. |
| AofManifest.MarkRewrittenIncrAofAsHistory | project/redis/backend/redis-src/src/aof.c:473-503 | The walk from the tail moves exactly the INCR entries before the open one to the history, in order, whether or not a file is open. |
| AofManifest.FileNamesDiffer | project/redis/backend/redis-src/src/aof.c:408-445 | Different sequence numbers or roles never give the same file name. |
| AofManifest.EveryRunConsistent | project/redis/backend/redis-src/src/aof.c:408-503 | Every run of manifest updates keeps at most one BASE, strictly increasing INCR numbers bounded by the counter, and distinct names. |
| ManifestText.PrintManifest | project/redis/backend/redis-src/src/aof.c:173-201 | The printed manifest is one line per entry: BASE, then HISTORY, then INCR. |
| ManifestText.LoadManifest | project/redis/backend/redis-src/src/aof.c:257-345 | The line-by-line loader computes the reference loader, with all its error cases. |
| ManifestText.LineRoundTrip | project/redis/backend/redis-src/src/aof.c:102-115 | A printed line parses back to its entry if and only if the name has no single quote that printing leaves unescaped; the other fields always survive. |
| ManifestText.ManifestRoundTrip | project/redis/backend/redis-src/src/aof.c:102-345 | Loading a printed non-empty manifest rebuilds the same BASE, HISTORY and INCR lists in order if and only if every name is quote-safe; then the counters are the ones of the last entries. |
| ManifestNames.OwnManifest | project/redis/backend/redis-src/src/config.c:2344-2354 | For every file name the configuration accepts and every manifest of files the file system can hold: the server reads its own manifest back if and only if the name has no single quote or has a byte that makes the printer quote it; otherwise loading fails. |
| ManifestNames.DefaultNames | project/redis/backend/redis-src/src/aof.c:64-69 | Known answer: the names of BASE and INCR files with the default prefix. |
| ManifestNames.DocumentedLines | project/redis/backend/redis-src/src/aof.c:54-61 | Known answer: the lines of the manifest in the documentation, for every one-digit sequence number and all three types. |
| Sds.SplitShown | project/redis/backend/redis-src/src/sds.c:889-932 | Splitting the shown form of a name (escaped when it has to be) gives the name back. |
| Sds.SpecialExactly | project/redis/backend/redis-src/src/sds.c:922-932 | Which bytes make a name need quoting: all but the visible ASCII characters other than the double quote and the backslash. |
| AofFlush.AofWrite | project/redis/backend/redis-src/src/aof.c:1007-1024 | The retry loop writes exactly the bytes the attempts allow, and returns the total, or the error of the first attempt. |
| AofFlush.FlushLog | project/redis/backend/redis-src/src/aof.c:1045-1220 | The flush, branch by branch, computes the reference step: postponed, full, failed, short and rolled back, short and kept, or exit; `FlushOutcome` says what that step leaves. |
| AofFlush.FlushOutcome | project/redis/backend/redis-src/src/aof.c:1045-1220 | Field by field, for every log with data to write at the end of its file and every outcome of the calls: the flush waits if and only if it is not forced, the policy is `everysec`, a sync is running and less than two seconds have passed; otherwise it writes the whole buffer if the calls let it through, exits if not and the policy is `always`, and else marks the log as failed with exactly the written part kept or taken back. |
| AofFlush.TotalIs | project/redis/backend/redis-src/src/aof.c:1007-1024 | How much the calls let through: the sum of the accepted parts before the first error, at most the buffer. |
| AofFlush.FlushKeeps | project/redis/backend/redis-src/src/aof.c:1007-1220 | For every outcome that does not exit, file bytes followed by the buffer are unchanged and `aof_last_incr_size` equals the file length, with the descriptor at the end of the file; it stays there if and only if it has O_APPEND or nothing was rolled back. |
| AofFlush.FlushKeepsExactly | project/redis/backend/redis-src/src/aof.c:1110-1200 | Without that assumption: the bytes are kept if and only if the descriptor is at the end of the file or, by its attempts, the flush leaves nothing in the file. |
| AofFlush.FlushTakes | project/redis/backend/redis-src/src/aof.c:1110-1200 | Exactly the bytes the attempts let through, and do not take back, move from the front of the buffer to the end of the file. |
| AofFlush.GapAfterRollback | project/redis/backend/redis-src/src/aof.c:790 | Counterexample: `openNewIncrAofForAppend` opens without O_APPEND, so a rolled-back short write followed by a full write leaves a zero byte in the file. |
| AofFeed.FeedAppendOnlyFile | project/redis/backend/redis-src/src/aof.c:1289-1347 | Feeding appends exactly the annotation, the SELECT if the database changes, and the command. |
| AofFeed.FeedShape | project/redis/backend/redis-src/src/aof.c:1289-1347 | Exactly one record for the command, one annotation before it if it is due, and one SELECT in between if and only if the database changes. |
| AofFeed.WrittenWords | project/redis/backend/redis-src/src/server.c:1953-1954 | Known answer: the bytes of MULTI, EXEC and SELECT as they are written. |
| AofFeed.Propagate | project/redis/backend/redis-src/src/server.c:3391-3431 | Propagating an execution unit appends its commands, between MULTI and EXEC when the unit is a transaction. |
| AofFeed.TrackUnit | project/redis/backend/redis-src/src/server.c:3391-3431 | If the log replays to a dataset, the log with the unit appended replays to that dataset with exactly the unit's writes done, each in its own database. |
| AofFeed.TransactionAtomic | project/redis/backend/redis-src/src/server.c:3391-3431 | A transaction is replayed whole or not at all: with any part of its bytes missing, loading runs exactly what the log before it runs. |
| AofFeed.CutLogHistory | project/redis/backend/redis-src/src/aof.c:1457-1619 | Whatever prefix of the records survives, replay gives a prefix of the history. |
| AofServer.LoadAppendOnlyFiles | project/redis/backend/redis-src/src/aof.c:1637-1760 | Loading BASE and then the INCR files in manifest order, each from database 0, stopping at the first that fails. |
| AofServer.StepRep | project/redis/backend/redis-src/src/aof.c:2437-2754 | Every safe step (feed, flush, rewrite start with any failure of the manifest, child success or failure, history deletion, crash and restart through the text of the manifest) keeps the invariant that ties manifest, files, buffer and live dataset together. |
| AofServer.EveryRunReplays | project/redis/backend/redis-src/src/aof.c:2437-2754 | Main theorem: in every state that a safe run reaches, reading the manifest on disk, replaying the files it lists and then the unflushed buffer gives exactly the live dataset, if and only if the configured file name is quote-safe; and a crash keeping any prefix of the open file then loads a prefix of it that contains everything in the closed files, unless the manifest on disk already lists the next file and the cut is inside a command or a transaction, and then it does not load. |
| AofServer.CrashLosesOnlyTail | project/redis/backend/redis-src/src/aof.c:1637-1760 | A crash at any byte of the open file loses a suffix of the writes and nothing else; the server starts again if and only if it can read its manifest and the file is not torn while a later file is listed. |
| AofOutcomes.RewriteDoneExact | project/redis/backend/redis-src/src/aof.c:506-576 | After a finished rewrite the log replays if and only if writing the manifest did not fail after the rename: then the new BASE is unlinked although the manifest on disk lists it. |
| AofOutcomes.OpenFailureExact | project/redis/backend/redis-src/src/aof.c:771-834 | The same failure while opening a new INCR file keeps the log replayable, but a crash after it starts if and only if it does not cut the open file inside a command or a transaction, because that file is no longer the last; before the failure every cut loads. |
| AofOutcomes.RefusedStart | project/redis/backend/redis-src/src/aof.c:1586-1605 | The refused start has already truncated the torn file: the next start loads what would have loaded at once, if and only if the cut was not inside a command of a transaction, and the one after that in any case. |
| AofOutcomes.LeftoverExact | project/redis/backend/redis-src/src/aof.c:2437-2505 | If the forced flush before a rotation fails or stops between two units, then after the rewrite the log replays to the live dataset if and only if the records left in the buffer do no write of their own; otherwise those writes are done twice. |
| AofOutcomes.LeftoverBefore | project/redis/backend/redis-src/src/aof.c:2437-2505 | Between the rotation and the end of the child the same log replays if and only if the flushed records left database 0 selected or the records left over select theirs before they write. |
| AofOutcomes.GapBreaks | project/redis/backend/redis-src/src/aof.c:1110-1200 | A flush on a descriptor past the end of a file of whole records leaves a file that no start loads. |
| AofOutcomes.RewriteStarts | project/redis/backend/redis-src/src/aof.c:2437-2505 | After an attempt to start a rewrite a child runs if and only if one did before or every step succeeded; then it saves the live dataset and the server writes a new, empty, numbered INCR file; a failed attempt leaves the manifest as it was. |
| AofOutcomes.RewriteCleans | project/redis/backend/redis-src/src/aof.c:2594-2754 | A finished rewrite that collects deletes exactly the old BASE, the INCR files before the open one and the files that were history; the new BASE holds the dataset of the child, the manifest lists it with the open INCR and nothing else, and no other file changes. |
| AofOutcomes.FailedRewrite | project/redis/backend/redis-src/src/aof.c:2594-2754 | A rewrite that fails, or whose file is not renamed, only forgets the child. |
| AofTidy.EveryFileListed | project/redis/backend/redis-src/src/aof.c:649-834 | In every state that a safe run reaches, each file in the directory is listed in the manifest in memory and in the one on disk, but for at most one: the next INCR file, created and not taken into use. |
| AofTidy.EveryRunCleans | project/redis/backend/redis-src/src/aof.c:649-673 | And when, after any such run, a rewrite succeeds and collects, the directory holds the new BASE, the open INCR file and at most that one. |
| AofInstance.Server.PropagateUnit | project/redis/backend/redis-src/src/aof.c:1308-1347 | The feeding loops compute the abstract feed step; a safe one keeps the object valid. |
| AofInstance.Server.FlushAppendOnlyFile | project/redis/backend/redis-src/src/aof.c:1045-1220 | The flush computes the abstract flush step, whose outcome `AofFlush.FlushOutcome` gives field by field, and says when the process exits; a safe one keeps the object valid. |
| AofInstance.Server.OpenNewIncrAofForAppend | project/redis/backend/redis-src/src/aof.c:771-834 | It succeeds if and only if the file opens and the manifest is written and synced, and then the open file is empty and its descriptor has no O_APPEND; whatever fails, a valid object without a child stays valid, and so does a successful switch with nothing buffered. |
| AofInstance.Server.RewriteAppendOnlyFileBackground | project/redis/backend/redis-src/src/aof.c:2437-2505 | Directory, forced flush, rotation and fork with every failure branch compute the abstract step; a safe one keeps the object valid. |
| AofInstance.Server.AofDelHistoryFiles | project/redis/backend/redis-src/src/aof.c:649-673 | With collection on, afterwards no history file exists and the history is empty; every other file is there as before; with it off nothing changes. A valid object stays valid. |
| AofInstance.Server.BackgroundRewriteDoneHandler | project/redis/backend/redis-src/src/aof.c:2594-2754 | New BASE, old entries to history, renames and persist with every failure branch compute the abstract step; a safe one keeps the object valid. |
| AofInstance.Server.RestartServer | project/redis/backend/redis-src/src/aof.c:1637-1760 | The manifest is read from its printed text, the files are loaded and old history files deleted; after a safe crash the restarted server is valid again and its dataset is a prefix of the one before. |
| AofInstance.Server.Serve | project/redis/backend/redis-src/src/aof.c:1308-2754 | Any safe run of events on the object: unless the process exits, it ends in a valid state in which the files on disk followed by the buffer replay to the live dataset if and only if the file name is quote-safe. |
| Crc64.FeedLinear | project/redis/backend/redis-src/src/crcspeed.c:112-144 | Shifting bits through the register is linear over GF(2). |
| Crc64.StepInjective | project/redis/backend/redis-src/src/crc64.c:88-111 | One shift of the register is injective, because the reflected polynomial is odd. |
| Crc64.CrcReflect | project/redis/backend/redis-src/src/crc64.c:69-78 | The reflection loop reverses the 64 bits. |
| Crc64.ReferenceIsCrc | project/redis/backend/redis-src/src/crc64.c:88-111 | The bit-by-bit register is, at every point of every message, the mirror image of the reflected one. |
| Crc64.ReferenceCrc64 | project/redis/backend/redis-src/src/crc64.c:88-111 | The bit-by-bit routine computes the CRC from the reflected initial value, for every buffer. |
| Crc64.LittleInit | project/redis/backend/redis-src/src/crcspeed.c:33-50 | The eight tables hold, for each byte, the effect of that byte followed by 0 to 7 zero bytes. |
| Crc64.SliceBy8 | project/redis/backend/redis-src/src/crcspeed.c:122-135 | Eight table lookups are 64 shifts of the register. |
| Crc64.LittleCrc64 | project/redis/backend/redis-src/src/crcspeed.c:112-144 | Slice-by-8 with head and tail loops equals the bit-by-bit definition for every buffer, alignment and initial value. |
| Crc64.BigInit | project/redis/backend/redis-src/src/crcspeed.c:87-95 | The big-endian tables are the byte-reversed little-endian ones. |
| Crc64.BigCrc64 | project/redis/backend/redis-src/src/crcspeed.c:183-213 | The big-endian routine computes the same value. |
| Crc64.FastIsReference | project/redis/backend/redis-src/src/crc64.c:88-123 | The fast CRC from c is the reference routine started from reflect(c). |
| Crc64.BurstDetected | project/redis/backend/redis-src/src/crc64.c:88-111 | Messages that differ only inside a window of at most 64 bits have different CRCs. |
| CrcCheck.CheckValue | project/redis/backend/redis-src/src/crc64.c:126-140 | Known answer: the CRC of "123456789" is 0xe9c6d914c4b8d9ca, which fixes the polynomial, the reflections and the initial value. |
| CrcCheck.StepIs | project/redis/backend/redis-src/src/crc64.c:88-111 | One shift of the register is one shift and, for an odd value, one exclusive-or on a machine word. |
| DumpPayload.CreateDumpPayload | project/redis/backend/redis-src/src/cluster.c:70-97 | The payload is the value, the version byte by byte, and the checksum of both, low byte first, and it verifies. |
| DumpPayload.VerifyDumpPayload | project/redis/backend/redis-src/src/cluster.c:104-127 | Accepted if and only if long enough, of a known version, and intact or not to be checked; so every created payload is accepted. |
| DumpPayload.DamageDetected | project/redis/backend/redis-src/src/cluster.c:104-127 | Any change confined to eight consecutive bytes of an intact payload is rejected, also inside the footer. |
| DumpPayload.OneByteChangeDetected | project/redis/backend/redis-src/src/cluster.c:104-127 | Every change of exactly one byte is rejected. |
| AclRules.RemoveCommandRule | project/redis/backend/redis-src/src/acl.c:565-607 | Editing the rule string in place drops exactly the rules with the same name or, for a command, those of its subcommands and first arguments. |
| AclRules.UpdateCommandRules | project/redis/backend/redis-src/src/acl.c:611-619 | The string after an update is the surviving rules followed by the new one. |
| AclRules.RulesReadBack | project/redis/backend/redis-src/src/acl.c:674 | Splitting the rule string gives the rules back if and only if no rule needs quotes. |
| Acl.SupersededTarget | project/redis/backend/redis-src/src/acl.c:590-602 | What a textual match says about the two rules: the same target, or a part of the same command. |
| Acl.SupersededNear | project/redis/backend/redis-src/src/acl.c:565-607 | A superseded rule only changes permissions that the newer rule overwrites. |
| Acl.AddedReplays | project/redis/backend/redis-src/src/acl.c:611-619 | Forgetting the superseded rules and appending the new one gives, when replayed, the permissions of all the old rules followed by the new one. |
| Acl.ReaddedPrefix | project/redis/backend/redis-src/src/acl.c:685-689 | Adding the rules of an edited list again, one by one, drops none of them. |
| Acl.ResolveKnown | project/redis/backend/redis-src/src/acl.c:1117-1194 | The text stored for an accepted operation is the lower-case name of its target. |
| Acl.ResolveName | project/redis/backend/redis-src/src/acl.c:1117-1194 | The stored text of a rule resolves to the same target again. |
| AclOps.EveryRunReplays | project/redis/backend/redis-src/src/acl.c:1025-1200 | Over every run of operations without quoted first arguments: replaying the rule list from its +@all or -@all base gives exactly the command bits and first arguments of the run. |
| AclOps.EffectBits | project/redis/backend/redis-src/src/acl.c:1025-1200 | Bit by bit, from the command table: an accepted + operation sets, and an accepted - operation clears, exactly the bits of the command it names and of its subcommands, of the subcommand it names, of the commands and subcommands of the category it names and the subcommands of those commands, or all bits; no other bit changes. |
| AclOps.EffectFirsts | project/redis/backend/redis-src/src/acl.c:1025-1200 | Pair by pair: it allows exactly the first argument it names, and forgets exactly those of the commands whose permission it changes. |
| AclOps.WordAccepted | project/redis/backend/redis-src/src/acl.c:1117-1126 | A word is accepted, with either sign, if and only if it is a command. |
| AclOps.CategoryAccepted | project/redis/backend/redis-src/src/acl.c:1188-1193 | A category is accepted if and only if it exists. |
| AclOps.PairAccepted | project/redis/backend/redis-src/src/acl.c:1127-1187 | `a&#124;b`: which of the four outcomes it has, for adding and for taking away, on the command table. |
| AclOps.ThreePartsRefused | project/redis/backend/redis-src/src/acl.c:1144-1148 | Three parts are refused, with an error of their own after a subcommand. |
| AclOps.OtherRefused | project/redis/backend/redis-src/src/acl.c:1194-1197 | Anything without a sign is an error, unless it is one of the two words for all and for no commands. |
| AclOps.WholeWords | project/redis/backend/redis-src/src/acl.c:1042-1055 | Known answer: the four ways to say all or no commands. |
| AclOps.KeyWords | project/redis/backend/redis-src/src/acl.c:1025-1116 | Exactly which operations are about keys and channels. |
| AclOps.RereadExact | project/redis/backend/redis-src/src/acl.c:748-801 | After any accepted operation on a selector whose rules were in order, splitting the rule string and applying its parts to a fresh selector gives the selector's permissions if and only if no first argument needs quotes. |
| AclOps.EveryRunRereads | project/redis/backend/redis-src/src/acl.c:748-801 | The same at the end of every run: the first operation that needs quotes, and no other, makes the rule string wrong. |
| AclOps.SpacedArgumentBreaks | project/redis/backend/redis-src/src/acl.c:1167-1179 | Counterexample for every command: a first argument with a space is accepted, but its rule splits in two and the second part is an error. |
| AclOps.SpacedArgumentDiffers | project/redis/backend/redis-src/src/acl.c:748-801 | Counterexample for every pair of commands: with the first argument `a +d` both parts of the split rule are accepted, and replaying them sets the bit of `d`, which the selector does not have. |
| AclSelector.Selector.constructor | project/redis/backend/redis-src/src/acl.c:343-360 | A new selector allows nothing and has no rules. |
| AclSelector.Selector.SetCommandBit | project/redis/backend/redis-src/src/acl.c:519-560 | Sets or clears one bit of the 64-bit words; clearing drops ALLCOMMANDS, so that flag always implies that every bit is set. |
| AclSelector.Selector.ChangePerm | project/redis/backend/redis-src/src/acl.c:623-636 | A command's permission extends to its subcommands; its first arguments are forgotten. |
| AclSelector.Selector.SetBitsForCategory | project/redis/backend/redis-src/src/acl.c:644-657 | Exactly the commands and subcommands of the category, and the subcommands of its commands, change. |
| AclSelector.Selector.AddAllowedFirstArg | project/redis/backend/redis-src/src/acl.c:933-959 | First arguments form a set up to case. |
| AclSelector.Selector.Change | project/redis/backend/redis-src/src/acl.c:623-657 | A resolved rule has its abstract effect on bits and first arguments, which `AclOps.EffectBits` and `AclOps.EffectFirsts` give from the table. |
| AclSelector.Selector.SetSelector | project/redis/backend/redis-src/src/acl.c:1025-1200 | Exact errors; an unchanged selector on error and for key and channel operations; otherwise, on every selector, each bit and each first argument is set, cleared or kept as the operation and the command table say; and from a valid selector the new rule string read again gives the new permissions if and only if no first argument needs quotes. |
| AclSelector.Selector.Describe | project/redis/backend/redis-src/src/acl.c:748-801 | Replaying the rule string on a fresh selector never fails and gives the same bitmap: the panic is unreachable. The text is the base followed by the rules. |
| AclSelector.Selector.Recompute | project/redis/backend/redis-src/src/acl.c:662-695 | Recomputing from the rules fails no assertion and changes neither rules nor permissions. |
| AdList.List.LinkNodeHead | project/redis/backend/redis-src/src/adlist.c:84-95 | Prepends the node; head, tail, prev, next and len stay consistent. |
| AdList.List.LinkNodeTail | project/redis/backend/redis-src/src/adlist.c:117-128 | Appends the node. |
| AdList.List.AddNodeHead | project/redis/backend/redis-src/src/adlist.c:70-79 | Prepends a fresh node with the value. |
| AdList.List.AddNodeTail | project/redis/backend/redis-src/src/adlist.c:103-112 | Appends a fresh node with the value. |
| AdList.List.InsertNode | project/redis/backend/redis-src/src/adlist.c:130-157 | Inserts exactly after or before the given node. |
| AdList.List.UnlinkNode | project/redis/backend/redis-src/src/adlist.c:173-187 | Removes exactly the given node and clears its links. |
| AdList.List.Empty | project/redis/backend/redis-src/src/adlist.c:36-51 | The list becomes empty; the counted walk never runs off its end. |
| AdList.List.Index | project/redis/backend/redis-src/src/adlist.c:327-339 | The node at a position from either end, or null out of range. |
| AdList.List.SearchKey | project/redis/backend/redis-src/src/adlist.c:302-320 | The first node with the value, or null if and only if there is none. |
| AdList.List.Dup | project/redis/backend/redis-src/src/adlist.c:257-291 | A fresh list with the same values in order. |
| AdList.List.RotateTailToHead | project/redis/backend/redis-src/src/adlist.c:342-354 | The last node moves to the front. |
| AdList.List.RotateHeadToTail | project/redis/backend/redis-src/src/adlist.c:357-369 | The first node moves to the end. |
| AdList.List.Join | project/redis/backend/redis-src/src/adlist.c:373-389 | All nodes of the other list follow; the other list is empty and valid. |
| AdList.Iter.Next | project/redis/backend/redis-src/src/adlist.c:236-247 | The iterator moves on before it hands out a node. |
| AdList.Walk | project/redis/backend/redis-src/src/adlist.c:222-247 | A walk in either direction that deletes any of the nodes it is handed visits every original node exactly once, in order, and leaves exactly the others. |
| BlockedIndex.ExactlyOnce | project/redis/backend/redis-src/src/blocked.c:371-389 | A client is in the waiting list of a key, and then once, if and only if the key is in its own table, whose stored node is that list node. |
| BlockedIndex.LinkKeeps | project/redis/backend/redis-src/src/blocked.c:371-389 | Linking a key keeps the two-way index. |
| BlockedIndex.UnlinkKeeps | project/redis/backend/redis-src/src/blocked.c:507-540 | Unlinking a key keeps the two-way index; no key is left with an empty list. |
| BlockedIndex.CountsUnlink | project/redis/backend/redis-src/src/blocked.c:526-537 | Decrementing or deleting the counter on unlinking is exactly the number of remaining waiters that asked for it; the assertion that an entry exists holds. |
| Blocked.EarlyReturnsSafe | project/redis/backend/redis-src/src/blocked.c:450-474 | The early returns of a signal lose nothing: a waiter that could be served makes the signal count. |
| Blocked.ServedExactly | project/redis/backend/redis-src/src/blocked.c:553-587 | A visited client is served if and only if the key holds the type it waits for, or it asked to be told when the key is gone; a client of a module never is. |
| Blocked.ServesTakers | project/redis/backend/redis-src/src/blocked.c:553-587 | While the key keeps its value, the walk serves exactly the clients in its list that take it, in the order of the list. |
| Blocked.SignalReachesWaiter | project/redis/backend/redis-src/src/blocked.c:306-494 | A signal and the next turn of the event loop: a client that waits for the key and finds there the type it waits for is served, through every quick return on the way. |
| Blocked.Server.constructor | project/redis/backend/redis-src/src/blocked.c:54-62 | Idle clients satisfy the invariant. |
| Blocked.Server.BlockForKeys | project/redis/backend/redis-src/src/blocked.c:359-410 | The client joins the end of the lists of exactly its keys, named twice or not; all other lists and clients are unchanged, counters match. |
| Blocked.Server.BlockClient | project/redis/backend/redis-src/src/blocked.c:67-79 | The by-type and total counters equal the number of blocked clients. |
| Blocked.Server.BlockOther | project/redis/backend/redis-src/src/blocked.c:592-625 | Blocking for replicas, a pause or a shutdown changes only the client and the counters. |
| Blocked.RunAll | project/redis/backend/redis-src/src/blocked.c:67-719 | After every sequence of block, key-touched, timeout, error and serving steps: a client is in the list of a key, once, if and only if the key is in its own table; no list is empty; the nokey counter of a key is the number of its waiters that asked for it; the by-type counters equal the blocked clients of each type. |
| Blocked.Server.ReleaseBlockedEntry | project/redis/backend/redis-src/src/blocked.c:507-540 | Exactly the client's node leaves the list of the key, also while its own table is emptied later in one go. |
| Blocked.Server.UnblockClientWaitingData | project/redis/backend/redis-src/src/blocked.c:414-428 | The client leaves all its lists, in whatever order its keys are visited. |
| Blocked.Server.UnblockClient | project/redis/backend/redis-src/src/blocked.c:164-206 | Lists, counters, flags and the queue of unblocked clients after unblocking, for every kind of block. |
| Blocked.Server.QueueClientForReprocessing | project/redis/backend/redis-src/src/blocked.c:153-160 | A client is queued at most once. |
| Blocked.Server.UnblockClientOnTimeout | project/redis/backend/redis-src/src/blocked.c:700-708 | A timeout frees the client and clears its pending command, unless its module has done so. |
| Blocked.Server.UnblockClientOnError | project/redis/backend/redis-src/src/blocked.c:712-719 | An error frees the client and clears its pending command. |
| Blocked.Server.SignalKeyAsReady | project/redis/backend/redis-src/src/blocked.c:447-494 | A key is queued if and only if the signal concerns a waiter and the key is not queued yet. |
| Blocked.Server.UnblockClientOnKey | project/redis/backend/redis-src/src/blocked.c:631-669 | Serving takes the client out of all its lists; if its command blocks again it joins lists at the end. |
| Blocked.Server.HandleClientsBlockedOnKey | project/redis/backend/redis-src/src/blocked.c:553-587 | The walk serves exactly the clients that waited when it began and find what they wait for at their turn, once each and in order; afterwards the list is the unserved ones in order followed by those that blocked again. The iterator never follows a node that left the list. |
| Blocked.Server.HandleClientsBlockedOnKeys | project/redis/backend/redis-src/src/blocked.c:306-350 | Passes over the ready keys keep the invariant; a key can be signalled again while it is handled; every client due at a key that was ready is served; drained means nothing is ready. |
| Bio.CompRequest | project/redis/backend/redis-src/src/bio.c:203-223 | A completion request queues behind the jobs of its own worker. |
| Bio.StepInv | project/redis/backend/redis-src/src/bio.c:178-385 | Every step of worker, submitters, drainers and event loop keeps the invariant (mutual exclusion, head of queue in flight, counters, responses). |
| Bio.JobsRunInOrder | project/redis/backend/redis-src/src/bio.c:276-362 | In every interleaving jobs are done in submission order, each once; the job in flight is the queue head and the next in line. |
| Bio.FsyncBeforeClose | project/redis/backend/redis-src/src/bio.c:58-66 | Over every interleaving of the three workers: a background fsync of the AOF and the closing of an AOF file wait in the same queue, so a close is done only after every fsync submitted before it. |
| Bio.CountersMatchQueue | project/redis/backend/redis-src/src/bio.c:366-374 | Whenever the mutex is free every counter equals the queued jobs of its type. |
| Bio.DrainReturnsWhenDone | project/redis/backend/redis-src/src/bio.c:377-385 | A drain returns if and only if every job is done and removed, among them all that were there at the call. |
| Bio.ResponseAfterEarlierJobs | project/redis/backend/redis-src/src/bio.c:336-352 | A completion response exists only after every earlier job of that worker; responses are the finished requests in order, none lost or doubled on the way to the callbacks. |
| Bio.NeverStuckExactly | project/redis/backend/redis-src/src/bio.c:276-385 | However many threads submit, no wake-up of the worker or of a draining thread is lost, in any run, if and only if at most one thread drains; with two, a run is given that leaves a job queued and everyone asleep. |
| Bitmap.SetBitAt | project/redis/backend/redis-src/src/bitops.c:192-199 | Masking and setting one bit of a byte changes that bit of the string and no other. |
| Bitmap.ByteBitIs | project/redis/backend/redis-src/src/bitops.c:188-206 | Bit 0 of a byte is its most significant one. |
| Bitmap.WindowBytes | project/redis/backend/redis-src/src/bitops.c:208-220 | Whole bytes read as a number are in network byte order. |
| Bitfield.SetUnsignedBitfield | project/redis/backend/redis-src/src/bitops.c:188-206 | Writes exactly the addressed bits, most significant first, for every width and offset. |
| Bitfield.GetUnsignedBitfield | project/redis/backend/redis-src/src/bitops.c:208-220 | Reads the number at any offset; the shift never overflows 64 bits. |
| Bitfield.GetSignedBitfield | project/redis/backend/redis-src/src/bitops.c:222-242 | Sign extension gives the two's complement value, in range. |
| Bitfield.ReadBack | project/redis/backend/redis-src/src/bitops.c:188-220 | The unsigned get inverts set, modulo 2^bits, for every width, offset and value. |
| Bitfield.WriteBack | project/redis/backend/redis-src/src/bitops.c:188-220 | Set inverts get: writing back what was read changes no bit. |
| BitfieldOverflow.WrapToUnique | project/redis/backend/redis-src/src/bitops.c:293-301 | There is exactly one value in range congruent to the sum modulo 2^bits. |
| BitfieldOverflow.StoredExactly | project/redis/backend/redis-src/src/bitops.c:244-266 | The reference the checks are held to: a value that fits is stored as it is; otherwise WRAP stores the one congruent value in range, SAT the nearest value in range, and FAIL nothing. |
| BitfieldOverflow.SignedWrapCorrect | project/redis/backend/redis-src/src/bitops.c:337-356 | The signed wrapping branch computes it. |
| BitfieldOverflow.UnsignedExact | project/redis/backend/redis-src/src/bitops.c:267-302 | The unsigned check is 0 if and only if the true sum is in range, and its sign tells the side otherwise; SAT gives the nearer bound and WRAP the congruent value. |
| BitfieldOverflow.SignedExact | project/redis/backend/redis-src/src/bitops.c:304-357 | The same for signed values, widths 1 to 64 and any 64-bit increment. |
| BitfieldOverflow.SignedSetExact | project/redis/backend/redis-src/src/bitops.c:304-335 | For SET of any 64-bit value: out of range is always detected, and SAT goes to the nearer bound if and only if the distance from the top of the range does not wrap around. |
| BitfieldOverflow.SaturatesUpwards | project/redis/backend/redis-src/src/bitops.c:312-323 | Counterexample: the smallest 64-bit integer saturates an i8 field to 127. |
| BitfieldCommand.CopyLosesNothing | project/redis/backend/redis-src/src/bitops.c:1229-1239 | Nine bytes hold every field that starts in the first of them. |
| BitfieldCommand.Update | project/redis/backend/redis-src/src/bitops.c:1142-1218 | SET and INCRBY give the reference reply and the reference bits, and say whether the field changed; `RepliesExactly` states the replies. |
| BitfieldCommand.Fetch | project/redis/backend/redis-src/src/bitops.c:1219-1252 | GET through the nine-byte copy gives the reference reply. |
| BitfieldCommand.WriteThenRead | project/redis/backend/redis-src/src/bitops.c:188-242 | Signed and unsigned get invert set: a value that fits the field is read back as itself. |
| BitfieldCommand.StoredReadsBack | project/redis/backend/redis-src/src/bitops.c:1142-1218 | After SET or INCRBY a GET of the same field reads exactly the integer that was stored, and no bit outside the field changes. |
| BitfieldCommand.BitfieldGeneric | project/redis/backend/redis-src/src/bitops.c:1087-1261 | A whole list of operations gives the replies and final bits of running it on an infinite zero tape with unbounded integers, where `RepliesExactly` says what each reply is; every write is in bounds after one growth. |
| BitfieldCommand.RepliesExactly | project/redis/backend/redis-src/src/bitops.c:1142-1252 | At each position of every list: a GET replies what the field holds, a SET what a GET would have replied just before it, an INCRBY what a GET replies just after it; there is no reply if and only if the policy is FAIL and the wanted integer does not fit, and then the field keeps its value. |
| BitfieldCommand.NothingCounted | project/redis/backend/redis-src/src/bitops.c:1179-1180 | If no change is counted, no bit changed. |
| BitfieldCommand.GrowthCounted | project/redis/backend/redis-src/src/bitops.c:1171-1183 | A string that was created or grew is counted as changed unless every write has FAIL and overflows on the bits the string had before the call. |
| BitfieldCommand.SilentCreation | project/redis/backend/redis-src/src/bitops.c:1255-1259 | Counterexample: a failing INCRBY creates the key and counts no change. |
| BitCount.Masks | project/redis/backend/redis-src/src/bitops.c:45-59 | The three masks of the source keep the low half of each group of 2, 4 and 8 bits. |
| BitCount.FirstStep | project/redis/backend/redis-src/src/bitops.c:45-45 | Two-bit lanes: each lane counts its bits, with no borrow between lanes. |
| BitCount.SecondStep | project/redis/backend/redis-src/src/bitops.c:46-46 | Four-bit lanes. |
| BitCount.ThirdStep | project/redis/backend/redis-src/src/bitops.c:59-59 | Byte lanes, with no carry between lanes. |
| BitCount.Gather | project/redis/backend/redis-src/src/bitops.c:59-65 | Multiplying by 0x01010101 adds the four lanes in the top byte, as long as they sum to less than 256. |
| BitCount.CountSeven | project/redis/backend/redis-src/src/bitops.c:33-66 | Seven words: the lanes sum to at most 224, and the result is the number of set bits. |
| BitCount.RedisPopcount | project/redis/backend/redis-src/src/bitops.c:19-71 | The number of set bits, for every length and alignment. |
| BitRange.Bitcount | project/redis/backend/redis-src/src/bitops.c:801-863 | Counts exactly the set bits of the normalised byte or bit range of a string. |
| BitRange.BitcountCommand | project/redis/backend/redis-src/src/bitops.c:775-863 | The whole command after parsing: the reply is the number of positions in the range whose bit is set, of all positions without a range, and zero for a missing key. |
| BitRange.RangeExactly | project/redis/backend/redis-src/src/bitops.c:801-817 | Position by position, which bits a byte or bit range with negative and overlong indexes denotes. |
| BitRange.CountBits | project/redis/backend/redis-src/src/bitops.c:818-862 | Also when both edges of the range lie in one byte. |
| BitPos.FindIsLeast | project/redis/backend/redis-src/src/bitops.c:74-79 | The reference search returns the least index, and None if and only if there is none. |
| BitPos.RedisBitpos | project/redis/backend/redis-src/src/bitops.c:80-165 | The word-skipping search finds the least such bit, or -1, or the position just past the end; its panic is unreachable for every alignment and length. |
| BitPos.SearchRange | project/redis/backend/redis-src/src/bitops.c:957-1004 | The search over a range with masked edge bytes is the search over its bits. |
| BitPos.BitposCommand | project/redis/backend/redis-src/src/bitops.c:897-1005 | The first position in the range with the bit; if there is none, the position after the string for a clear bit without an explicit end and a range that is not empty, and -1 otherwise; a missing key has its first clear bit at 0 and no set bit. |
| BitPos.PosRangeExactly | project/redis/backend/redis-src/src/bitops.c:914-956 | Position by position, which bits are searched. |
| BitOp.FastPath | project/redis/backend/redis-src/src/bitops.c:657-722 | The chunked path computes, for every byte it covers, the fold over all sources. |
| BitOp.Column | project/redis/backend/redis-src/src/bitops.c:726-749 | Stopping a column early does not change its result. |
| BitOp.Bitop | project/redis/backend/redis-src/src/bitops.c:618-750 | A bit of the result is set if and only if all sources have it (AND), one has it (OR), an odd number has it (XOR), or the source has not (NOT), shorter sources and missing keys counting as zeros; its length is that of the longest source. |
| HashSlot.KeyHashSlot | project/redis/backend/redis-src/src/cluster.h:43-62 | Hashes what is between the first { and the next }, unless there is no pair or nothing in it. |
| HashSlot.HashedTag | project/redis/backend/redis-src/src/cluster.h:43-62 | With a { in the key and a } after it, what is between them is hashed, or the whole key if nothing is. |
| HashSlot.HashedWhole | project/redis/backend/redis-src/src/cluster.h:43-62 | Without such a pair the whole key is hashed. |
| HashSlot.LiteralPrefix | project/redis/backend/redis-src/src/util.c:57-189 | A pattern can only match keys that start with its literal prefix. |
| HashSlot.PatternHashSlot | project/redis/backend/redis-src/src/cluster.c:29-54 | If a slot is inferred, every key the pattern matches is in it, whatever the matcher does from the first special byte on; none is inferred if and only if a special byte comes before any closed non-empty tag. |

## Left out

- AofServer.EveryRunReplays: does not cover turning the AOF on or off at run time (`startAppendOnly`, `stopAppendOnly`), which is a second state machine around this one.
- AofOutcomes.LeftoverExact: a flush that stops inside a record or a transaction is not covered; the new file then starts with part of a unit.
- AofServer.LoadAppendOnlyFiles: the upgrade from a single old-style file without a manifest is left out, and so is the distinct return code when all files are empty.
- fsync and its error policy beyond the exit on `always`, the background fsync, and the replication offsets for WAITAOF.
- The contents of an RDB file or rewritten AOF base: a BASE file is the snapshot it was made from.
- AclSelector.Selector.SetSelector: key and channel patterns live in other fields and are not modelled; the result of those arms is a parameter. The invariant is promised only as long as no first argument needs quotes, which is where it stops being true.
- ACL users, passwords, categories of modules added later, and permission checks at command time.
- Blocked.Server.HandleClientsBlockedOnKeys: stated for a bounded number of passes, because the loop need not end when commands keep signalling each other.
- Blocked.Server.BlockOther: the lists of clients waiting for replicas and of postponed clients are not modelled.
- Blocked.Server.UnblockClient: the lists of clients waiting for replicas and of postponed clients are not modelled, nor is the module side of a blocked client.
- Waiting lists are sequences of nodes in `Blocked`; that the linked list behaves like them is proved separately in `AdList`.
- Bio.NeverStuckExactly: is about safety of wake-ups; that a ready thread is eventually scheduled is not modelled.
- What the jobs do (closing files, fsync, freeing memory), and killing the threads.
- BitCount.RedisPopcount: 32-bit words are loaded least significant byte first; the table of set bits per byte is the function it tabulates.
- BitRange.BitcountCommand: argument parsing and its errors are left out.
- BitPos.BitposCommand: argument parsing and its errors are left out.
- BitfieldCommand.BitfieldGeneric: argument parsing is left out; operations come parsed, with the ranges the parser enforces.
- SETBIT and GETBIT, which are the one-bit case of the bitfield functions.
- HashSlot.LiteralPrefix: the matcher is only assumed to compare ordinary bytes one by one; what `*`, `?`, `[` and `\\` match is left arbitrary, which makes the slot theorem stronger.
- The 16-bit CRC and the cluster bus, MIGRATE and redirections.
- Sockets, the event loop, modules, reply formatting and memory management throughout, and the demo programs outside Redis.
