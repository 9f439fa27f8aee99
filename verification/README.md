# agent-signals: the spool and the canonical form, verified

A Dafny model of the two parts of agent-signals that carry its promises, and of the line
where they meet.

**The spool** (`internal/spool/writer.go` over `internal/durability/durability.go`) is one
append-only file for each source. A writer takes an advisory lock, opens the file, cuts a
torn tail, and then appends each record as one line with a write and a sync. The model is a
machine over the file's cached and durable images, the directory entries that lead to it,
the writer's position in its code, and a ghost history of submitted and acknowledged
records (`SpoolFile`, `SpoolLog`, `Spool`, `SpoolSafety`). `SpoolGrowth` shows that the file only
grows behind an acknowledgement, `SpoolLoss` exactly when a host loss can take a line. `SpoolConcurrent` lets any
number of processes interleave at single system calls, with a lock table by inode, process
death and host loss, and refines every such run to a run of the machine; `SpoolProgress`
shows that the lock is not too strong. `Writer` is the
code itself: the class with its `broken` field, `Open`, `Append`, `Close` and tail repair,
each method proved to perform a run of the same machine, to fail only when a system call
failed or a handle was not what it must be, and to sync through the primitives that the
probe ran. `Durability` is that probe with the syncer it makes, and `MountInfo` the
mount-table lookup.

**The decoder and the canonical serializer** (`internal/contract/json.go`,
`internal/contract/canonical.go`) are a parser and a printer. `Utf8`, `Utf16`, `Lexer` and
`Tokens` model what the code uses of Go's text packages and of `encoding/json`; `Grammar`
is the independent reference: concrete syntax trees of JSON texts, with white space and
escape spelling, their text, their meaning, their depth, and whether they repeat a key or
hold an unpaired surrogate. `Decoder`, `DecoderSoundness`, `SurrogateScan` and
`StrictDecode` prove the strict decoder exact against it, and `Refusals` says which check
refuses what. `Canonical`, `RoundTrip` and `LineSafety` prove the serializer injective,
invertible and free of line breaks, `CanonicalText` that its output is the one canonical
spelling in the grammar's terms, and `Examples` fixes letters, words and limits on small
documents.
`EventLine` follows one event line to its digest, `DuplicateKeys` is the corpus check that
finds repeated keys with an explicit stack.

**The bridge** is `EndToEnd`: canonical forms appended by any processes through any crashes
are read back, split into lines and decoded, as the values they came from.

## What is assumed

- A host loss leaves the last durable image of the file and a prefix of the operations
  since, the last write cut at any byte; a directory entry that was not synced may be lost.
  At host-loss mode a successful sync makes the whole cached image durable. At
  process-crash mode a sync promises nothing about the platter, so claims at that mode
  cover every failure but a host loss; `SpoolLoss.ProcessCrashLosesOnHostLoss` shows why.
- A failed sync loses nothing that is in the cached image. The code warns that the kernel
  may drop a dirty page after one (`internal/spool/writer.go:259-262`); what is said about
  a spool reopened after a failed sync needs that excluded.
- A write that reports failure has appended some prefix of its line; a truncate that
  reports failure has changed nothing. A short read is a failed read.
- flock excludes by inode and is released with its descriptor; O_APPEND writes at the end.
- `encoding/json`, `unicode/utf8`, `unicode/utf16`, `strings.Fields` and the `bytes`
  functions behave as documented. Schema, profile and timestamp acceptance of an event is
  one predicate `conforms`; which number lexemes fit a float64 is one predicate `fits`.
- SHA-256 is not modelled: what is said of digests is said of the bytes hashed.

## What does not hold, and exactly when it does

- Lookup of the filesystem type. `internal/durability/mountinfo.go:22-23` says that no field
  it reads can contain a space. `strings.Fields` also splits at U+0085, U+00A0 and other
  white space, which the kernel does not escape. `MountInfo.LookupFindsFirst` has the
  condition, `MountInfo.NoBreakSpaceMisleads` a mount point for which the lookup answers with
  a part of the name.
- The corpus scan for repeated keys. `fixtures/corpus_test.go:166-168` says that it reports
  whether any object repeats a key. It reads numbers as float64, so a number out of range
  ends it early. It is right on every document whose numbers fit
  (`DuplicateKeys.ScanAgreesWhenFit`); `DuplicateKeys.ScanAgreesIff` has the exact condition,
  `DuplicateKeys.ScanMissesRepeat` a document it gets wrong.
- The bound on canonical lines. The canonical form of an accepted line can exceed the bound
  the line met, because separators are escaped: `EventLine.CanonicalLineReparses` has the
  condition, `EventLine.CanonicalLineOutgrows` such a line.
- Durability of complete lines. `Open` returns without a sync when the file already ends in a
  newline (`internal/spool/writer.go:297-299`), so a complete line need not be durable after
  it: `SpoolLoss.OpenLeavesLineUnsynced` is the run, `Writer.Open` says when the whole file is
  durable, and `SpoolLoss.LosesNoLineIff` when a host loss can take no line. At host-loss mode
  acknowledged records are not among the lines at risk (`SpoolSafety.LinesAreRecords`).
- Convergence of repair. After such an `Open` a host loss between the cut of a later repair
  and its sync can take a complete line, and the next repair then ends elsewhere
  (`SpoolLoss.RepairNeedNotConverge`). `SpoolFile.RepairConverges` has the condition: no
  newline among the unsynced writes, and none cut off by an unsynced truncate.
- Acknowledgements at process-crash mode. A host loss can take an acknowledged record
  (`SpoolLoss.ProcessCrashLosesOnHostLoss`), as `internal/durability/durability.go:47-54` says
  it may; `SpoolLoss.LosesNoLineIff` holds at every mode.

## Model

| member | source | states |
|---|---|---|
| SpoolSafety.LinesAreKept | internal/spool/writer.go:91-310 | After every run of opens, appends, failures, closes, crashes and host losses, the lines of the file are, incarnation by incarnation, all acknowledged records in order and then at most the one record that was in doubt |
| SpoolSafety.LinesAreRecords | internal/spool/writer.go:230-310 | After every run the acknowledged records are a subsequence of the lines, in acknowledgement order, and every line is byte for byte a record given to Append |
| SpoolSafety.StepKeepsInv | internal/spool/writer.go:91-310 | Every single system call, failure, death or host loss keeps the invariant, which covers each image a host loss could leave |
| SpoolSafety.RunKeepsInv | internal/spool/writer.go:91-310 | Every run keeps the invariant; below host-loss mode every run without a host loss |
| SpoolSafety.OpenMakesReachable | internal/spool/writer.go:187-225 | Once one Open has succeeded, no later run makes the events directory or the spool file unreachable from the root, whatever an earlier Open left unsynced |
| SpoolSafety.WriteStep | internal/spool/writer.go:248-256 | Any part of a line that reaches the file, and any part of it that a host loss then leaves, tells the same history |
| SpoolSafety.TruncatedFile | internal/spool/writer.go:305-309 | Cutting the tail leaves exactly the longest newline-terminated prefix, and a host loss between truncate and sync still leaves a faithful file |
| SpoolSafety.AckStep | internal/spool/writer.go:258-268 | Acknowledging after the sync keeps the invariant: the record is on every image that may survive |
| SpoolSafety.LossStep | internal/spool/writer.go:187-225 | A host loss at any point, in the middle of an open or a repair included, keeps the invariant at host-loss mode |
| SpoolSafety.ChunkStep | internal/spool/writer.go:314-329 | One chunk of the backward scan, of any size, either finds the end of the longest newline-terminated prefix or moves strictly toward the start |
| SpoolSafety.AckedAreLogged | internal/spool/writer.go:230-269 | The acknowledged records of the history are those of the run, in the order of their successful syncs |
| SpoolSafety.RecordedWasSubmitted | internal/spool/writer.go:230-269 | Nothing is in the history that was not submitted |
| SpoolSafety.ModeMayWeaken | internal/durability/durability.go:35-55 | A spool in a good state at host-loss mode is in one at process-crash mode |
| SpoolGrowth.AcknowledgedFileStays | internal/spool/writer.go:227-269 | Whatever follows a successful append, reopens, repairs and crashes included, the whole file as it then was stays byte for byte the beginning of the file, and its lines stay the first lines |
| SpoolGrowth.StepKeepsPrefix | internal/spool/writer.go:279-310 | No single call, repair's cut included, touches a byte of a newline-terminated beginning that is durable at the mode's strength |
| SpoolLoss.LosesNoLineIff | internal/spool/writer.go:183-225 | In any good state, at any mode, no host loss takes a complete line if and only if no unsynced operation writes a newline or cuts one off, and the file, if it has a line, is reachable through durable entries |
| SpoolLoss.OpenLeavesLineUnsynced | internal/spool/writer.go:293-299 | The run from an empty spool, with a failed sync, after which a successful Open leaves a complete line that a host loss takes |
| SpoolLoss.RepairNeedNotConverge | internal/spool/writer.go:301-309 | The run on from there in which a host loss between the cut of repair and its sync leaves a file that repairs to less |
| SpoolLoss.ProcessCrashLosesOnHostLoss | internal/durability/durability.go:47-54 | A run from an empty spool at process-crash mode in which a host loss takes an acknowledged record |
| SpoolLoss.ReachReady | internal/spool/writer.go:187-225 | From any reachable state in which no writer is open, an Open over an empty or newline-terminated file can succeed, with both entries committed and the file as it was |
| SpoolLoss.ReachCut | internal/spool/writer.go:279-309 | Over a torn tail it can get to the cut, which leaves the longest newline-terminated prefix |
| SpoolLoss.CrashesAnywhere | internal/spool/writer.go:91-310 | The model leaves no crash out: a writer may die wherever it is, with any part of the line it was writing in the file, and a host loss may leave any surviving image, or no file wherever an entry was not durable |
| SpoolConcurrent.ConcurrentSafety | internal/spool/writer.go:91-310 | For any number of processes and any interleaving: at most one of them is in the writer's code; the lines are, incarnation by incarnation, the acknowledged records and at most one doubtful record after them; acknowledged records keep their order, and every line was submitted by some process |
| SpoolConcurrent.ConcurrentFileStays | internal/spool/writer.go:227-269 | Whatever any processes do after an append of one of them has succeeded, the whole file as it then was stays the beginning of the file |
| SpoolConcurrent.Refines | internal/spool/writer.go:101-116 | Every concurrent run, host losses that forget the lock file included, has the effect of a sequential run of the spool |
| SpoolConcurrent.ActRefines | internal/spool/writer.go:141-225 | Each action of each process is one event of the sequential spool, or none |
| SpoolConcurrent.ActKeepsGuard | internal/spool/writer.go:141-169 | Every action keeps the guard: all open lock descriptors are on the one inode the path names, and a process is in the writer's code exactly while it owns that lock |
| SpoolConcurrent.AtMostOneHolder | internal/spool/writer.go:141-169 | Two live processes are never both in the writer's code |
| SpoolConcurrent.OnlyTheHolderWrites | internal/spool/writer.go:101-116 | Whatever changes the file or its entries is done by the owner of the lock, or is a host loss |
| SpoolProgress.LockCanBeTaken | internal/spool/writer.go:141-169 | In every guarded world without a holder any process can take the lock, by steps of its own alone |
| SpoolProgress.AnyoneCanAppend | internal/spool/writer.go:91-268 | From there it can open the spool, whatever its file is like, and append any record Append accepts: the record becomes the last line behind all complete ones and the last acknowledged one |
| SpoolProgress.AdvanceOpen | internal/spool/writer.go:187-310 | Whatever the file, the calls of an Open can all succeed and leave its longest newline-terminated prefix |
| Writer.Writer.Append | internal/spool/writer.go:230-269 | A broken writer repeats its error and touches nothing; an empty or line-breaking record is refused, each as such, and touches nothing; otherwise the append succeeds exactly when no call failed. Success appends exactly the line, acknowledges it, and has synced the file once, on the probed device, by a primitive that the probe had run with success on a file and on a directory; at host-loss mode nothing is left unsynced. Failure leaves a prefix of the line and the record in doubt, reports a write as a write and a sync as a sync, the whole line then being in the file, and breaks the writer for good |
| Writer.Writer.Commit | internal/spool/writer.go:243-268 | Write and then sync: the three calls of an accepted append in order, or those up to the first that failed, with the error that names it |
| Writer.Writer.WriteRecord | internal/spool/writer.go:243-256 | One write of record and newline; on failure some prefix of it is in the file |
| Writer.Writer.SyncRecord | internal/spool/writer.go:258-268 | The sync of the syncer's own mode acknowledges the record; a failed one leaves it in doubt with the file as written |
| Writer.Writer.Close | internal/spool/writer.go:271-277 | Both descriptors are given up, the events file first, whether or not a close fails; each failure is reported, and the spool is unchanged |
| Writer.CheckRecord | internal/spool/writer.go:234-241 | A record passes exactly when it is not empty and contains none of the five line breaks anywhere in its bytes; an empty one is refused as empty, any other as breaking a line |
| Writer.LineBreaksListed | internal/spool/writer.go:46-51 | The five listed byte strings are those of LF, CR, U+0085, U+2028 and U+2029: bytes contain one of them exactly if they contain the encoding of a line break |
| Writer.Open | internal/spool/writer.go:91-119 | Success, exactly when no call failed and the file is a regular one on the probed device: the longest newline-terminated prefix is kept, both directory entries were synced through the syncer, and the file too if a tail was cut. At host-loss mode the entries are durable for good, and all of the file is durable if and only if it was before or a tail was cut. Failure: nothing but the torn tail may be gone and the lock is free; it is reported as a lock not taken if and only if nothing was done at all, as a failed repair if and only if the entry of the events file had been synced, and otherwise as an events file not opened. An invalid source, an unprobed syncer and one of another root are each refused as such and change nothing |
| Writer.OpenLocked | internal/spool/writer.go:106-118 | The same for the part under the lock |
| Writer.OpenEventsFile | internal/spool/writer.go:187-225 | Succeeds exactly when no call failed and the file is a regular one on the probed device, having synced root and events directory in that order |
| Writer.VerifyEvents | internal/spool/writer.go:171-185 | The open events file passes exactly when it is regular, on the probed device, and both are known |
| Writer.SyncEventsFile | internal/durability/durability.go:280-290 | One recorded sync of the events file through the syncer; what it moves to the platter is decided by the recorded call |
| Writer.SyncRootDir | internal/durability/durability.go:292-319 | The same for the entry of the events directory, on a handle of the probed device |
| Writer.SyncEventsDir | internal/durability/durability.go:292-319 | The same for the entry of the events file |
| Writer.CommitEventsDir | internal/spool/writer.go:187-198 | The events directory exists and its entry was synced in the root, on every open, exactly when no call failed |
| Writer.CommitEventsFile | internal/spool/writer.go:200-225 | The entry of the events file was synced, on every open, exactly when no call failed and the file is a regular one on the probed device; otherwise the file is closed again |
| Writer.Abandon | internal/spool/writer.go:106-116 | A repair that failed closes the events file, then releases the lock, and leaves files and history as they are |
| Writer.RepairTail | internal/spool/writer.go:283-310 | Succeeds exactly when no call failed, and then the file is its longest newline-terminated prefix; a file that already is one is neither touched nor synced, so at host-loss mode all of it is durable if and only if it was before or a tail was cut; on failure it is either what it was or that prefix |
| Writer.TailIsTorn | internal/spool/writer.go:284-299 | The last byte, if there is one, decides whether a tail must be cut |
| Writer.CutTail | internal/spool/writer.go:305-309 | Truncate, then sync: success leaves exactly the longest newline-terminated prefix, synced once, and at host-loss mode all durable |
| Writer.LastNewlineOffset | internal/spool/writer.go:312-329 | For every file and every chunk size of at least one the scan ends, fails only if a read failed, and answers with the last byte of the longest newline-terminated prefix, or -1 if there is none |
| Writer.ScanChunk | internal/spool/writer.go:316-325 | Reading one chunk settles the answer or proves that no newline is in it |
| Writer.LastNewlineIn | internal/spool/writer.go:322 | The last newline of a chunk, or -1 |
| Writer.HostLines | internal/spool/writer.go:91-310 | Whatever Opens, Appends and Closes the code has run on a spool that began empty, the lines are the accepted records in order among submitted ones |
| SpoolFile.RepairedIsLongest | internal/spool/writer.go:279-310 | No newline-terminated prefix is longer than the one repair keeps, and what repair removes holds no newline |
| SpoolFile.RepairIdempotent | internal/spool/writer.go:283-310 | Repairing twice is repairing once |
| SpoolFile.RepairConverges | internal/spool/writer.go:305-309 | Whatever a host loss between the cut of repair and its sync leaves, it repairs to the same content, if and only if before the cut no unsynced write held a newline and no unsynced truncate had cut one off |
| SpoolFile.AlikeIffSettled | internal/spool/writer.go:279-310 | All images a host loss may leave repair to the same content if and only if no unsynced operation writes a newline or cuts one off |
| SpoolFile.SurvivesExactly | internal/spool/writer.go:187-225 | What a host loss may leave of the file: the durable image with everything done up to some point since, and of a write at that point any beginning |
| SpoolLog.LinesDetermine | internal/spool/writer.go:279-310 | Two files have the same lines exactly when they repair to the same content |
| SpoolLog.LinesGrow | internal/spool/writer.go:227-269 | A file that begins with a newline-terminated one has its lines first |
| SpoolLog.LinesOfRepaired | internal/spool/writer.go:279-310 | Repair removes no complete line |
| SpoolLog.LinesOfText | internal/spool/writer.go:245-248 | Records without newlines, framed and split again, are the same records |
| SpoolLog.FaithfulLines | internal/spool/writer.go:230-310 | A file that tells a history has as lines the kept records of that history and nothing fused, cut or reordered |
| SpoolLog.PartOfLine | internal/spool/writer.go:248-256 | A file with any prefix of the line in doubt after its newline-terminated text still tells the same history |
| SpoolLog.AcknowledgedFaithful | internal/spool/writer.go:258-268 | A file that ends with the whole line in doubt tells the history in which that record is acknowledged |
| Durability.ProbeAttests | internal/durability/durability.go:160-257 | Whatever mode a successful probe reports, its primitive worked on the file handle and on the directory handle; host-loss is reported exactly where the full barrier worked on both and the volume is not volatile; the removal of the probe is the last thing committed, at that mode |
| Durability.ProbeRunsListed | internal/durability/durability.go:195-257 | The answers on file and directory that justify a mode, listed one by one: four runs of calls and no other |
| Durability.Probe | internal/durability/durability.go:87-112 | A network volume is refused before anything is tried, as is one whose inspection or device fails; a syncer names the probed directory, its device, and a mode that a complete probe run among the machine's calls justified; any other error names the very call that failed |
| Durability.ProbeMode | internal/durability/durability.go:163-193 | A mode is returned only after create, open, write, measure, close, remove and a committed removal, in that order; an error only when a call failed, which the error names, and after the close and remove that sweep the probe away |
| Durability.MeasureMode | internal/durability/durability.go:195-223 | The mode that the platform's answers on file and directory justify: an unsupported full barrier falls back to the ordinary sync on both and is never an error, any other failure is, and a volatile volume never reaches host-loss |
| Durability.VerifyProcessCrash | internal/durability/durability.go:248-257 | The weaker mode is reported only after the ordinary sync worked on both handles, and an error only when one of the two failed |
| Durability.CommitProbeRemoval | internal/durability/durability.go:230-243 | Success means closed, removed and the directory synced at the measured mode, in that order; failure names the first of the three that failed |
| Durability.Sweep | internal/durability/durability.go:168-173 | A probe that failed once its file existed still tries to close and remove it |
| Durability.SyncAt | internal/durability/durability.go:327-333 | Host-loss mode uses the full barrier and nothing else does |
| Durability.SyncFile | internal/durability/durability.go:280-290 | The zero syncer refuses without a call; any other makes one call, of its mode's primitive on the handle, and succeeds exactly when that does |
| Durability.SyncDir | internal/durability/durability.go:292-319 | Success is one successful sync, by the mode's primitive, of a handle on that directory and on the probed device; a handle on another device, or one that cannot be opened or checked, is not synced at all |
| Durability.AttestsVouches | internal/durability/durability.go:71-87 | The primitive of a syncer that a probe made has worked on a file and on a directory of the machine |
| Durability.VerifyFile | internal/durability/durability.go:119-137 | A handle passes exactly when the syncer came from a probe and the handle's device is the probed one; an unprobed syncer, an unknown device and another device are each reported as such, and only then |
| MountInfo.DeviceBijection | internal/durability/mountinfo.go:50-58 | The split of a 64-bit device number into 32-bit major and minor is a bijection, with its inverse written out |
| MountInfo.MountTypeForDevice | internal/durability/mountinfo.go:32-48 | The loops return the type field of the first line of the device, for any table at all; what the device is searched for is DeviceFieldText, what is found LookupFindsFirst |
| MountInfo.LookupFindsFirst | internal/durability/mountinfo.go:15-48 | Over any rendered table with any number of optional fields: empty if the device has no mount, and the type of its first mount if and only if no piece of that mount's names is a lone dash in the scanned fields with a word other than the type after it |
| MountInfo.LineOfMount | internal/durability/mountinfo.go:35-45 | A rendered line answers for its own device and no other, with the word after the first lone dash it meets, which is its type exactly when the line does not mislead |
| MountInfo.PlainNamesNeverMislead | internal/durability/mountinfo.go:22-23 | No mount misleads whose names hold no white space of any kind |
| MountInfo.NoBreakSpaceMisleads | internal/durability/mountinfo.go:22-23 | A mount point with no-break spaces for which the lookup answers with a part of the name |
| MountInfo.DeviceFieldInjective | internal/durability/mountinfo.go:33-37 | Two devices print the same major:minor field exactly when both numbers are equal |
| MountInfo.DecimalIsTheNumeral | internal/durability/mountinfo.go:32-33 | A string is what a number prints as if and only if it is a decimal numeral without a leading zero that counts to that number |
| MountInfo.DecimalCounts | internal/durability/mountinfo.go:32-33 | Read as digits in base ten, the printed number is the number again |
| MountInfo.NumeralUnique | internal/durability/mountinfo.go:32-33 | No two such numerals count to the same number |
| MountInfo.DeviceFieldText | internal/durability/mountinfo.go:32-37 | The field searched for is the numeral of the major number, a colon and the numeral of the minor number, and no other string is |
| MountInfo.ColumnOrder | internal/durability/mountinfo.go:24-46 | A line of a rendered table is, each with a space after it: mount id, parent id, device, root, mount point, options, the optional fields, a dash and the type, and then the rest |
| MountInfo.SpaceTable | internal/durability/mountinfo.go:35 | The white space at which a line is split into fields is the twenty-five characters with that property in Unicode, listed |
| MountInfo.DeviceBits | internal/durability/mountinfo.go:50-58 | Which bits are whose: of the major number the low twelve are at bit 8 and the rest at bit 44, of the minor number the low eight at bit 0 and the rest at bit 20 |
| Utf8.DecodeInvertsEncode | internal/contract/canonical.go:84-93 | Every encoded scalar sequence is valid UTF-8 and decodes to itself |
| Utf8.ValidIsEncoded | internal/contract/json.go:31-33 | Bytes pass the UTF-8 check exactly when they are the encoding of what they decode to |
| Utf8.Synchronized | internal/spool/writer.go:237-241 | The encoding of a character occurs in encoded text, at any byte offset, only where that character does |
| Utf8.EncodesByTheTable | internal/contract/json.go:31-33 | The bytes of a character are exactly those of the table of RFC 3629, section 3, in its four lengths |
| Utf8.DecodesByTheTable | internal/contract/json.go:31-33 | Bytes start with a good character if and only if they start with a row of that table for it; everything else reads as one bad byte |
| Utf16.DecodeInvertsEncode | internal/contract/canonical.go:77-95 | The UTF-16 form of a scalar sequence is well formed and decodes to it, so equal forms mean equal strings |
| Utf16.WellFormedIsEncoded | internal/contract/json.go:49-57 | Code units without an unpaired surrogate are exactly the UTF-16 forms of scalar sequences |
| Utf16.CompareDecided | internal/contract/canonical.go:86-91 | The first differing scalar alone decides the comparison of the full code-unit sequences |
| Utf16.LessIsStrictTotal | internal/contract/canonical.go:77-95 | The key order is a strict total order on scalar sequences |
| Utf16.CompareIsLexicographic | internal/contract/canonical.go:77-95 | The comparison is negative if and only if at the first place where the sequences differ the first one ends or has the smaller code unit |
| Utf16.LessByRank | internal/contract/canonical.go:77-95 | The key order on characters: at the first difference the first key ends or has the character of smaller rank, where the astral characters rank between U+D7FF and U+E000 |
| Utf16.UnitsByRank | internal/contract/canonical.go:86-91 | Of two characters the one of smaller rank has the code units that come first |
| Utf16.PairsInOrder | internal/contract/canonical.go:86-91 | An astral character is a high and a low surrogate, and these pairs are in the order of the characters |
| Canonical.CompareUTF16 | internal/contract/canonical.go:82-95 | For every pair of byte strings the loop returns the comparison of their full UTF-16 forms, which Utf16.CompareIsLexicographic says is the lexicographic one, and zero exactly when both decode to the same scalars |
| Canonical.ValidNeverTies | internal/contract/canonical.go:82-95 | On valid UTF-8 the comparison is zero only for equal strings |
| Canonical.BadBytesTie | internal/contract/json.go:31-33 | Without the UTF-8 check two different strings can tie, so the order needs it |
| Canonical.SortedUnique | internal/contract/canonical.go:54-58 | A set of keys has one sorted list, so map iteration order cannot show |
| Canonical.SortKeys | internal/contract/canonical.go:58 | The keys come out strictly ascending in UTF-16 order, the order of Utf16.LessByRank, with the same members |
| Canonical.CollectKeys | internal/contract/canonical.go:54-57 | Every key of the map once, in some order |
| Canonical.AppendCanonical | internal/contract/canonical.go:28-75 | Appends to any buffer exactly the canonical form of the value, which CanonicalText.CanonIsTheCanonicalText characterises in the grammar's terms |
| Canonical.AppendMembers | internal/contract/canonical.go:59-71 | The members in the given key order, comma before all but the first |
| Canonical.AppendElems | internal/contract/canonical.go:41-52 | The elements in order, comma before all but the first |
| Canonical.AppendCanonicalString | internal/contract/canonical.go:99-139 | For any bytes: quoted, every well-formed character by the escape table of Canonical.EscapeChoice, every bad byte as it is |
| Canonical.EscapeBytesOfText | internal/contract/canonical.go:99-139 | On valid UTF-8 the byte loop is the escape table applied scalar by scalar |
| Canonical.EscapeChoice | internal/contract/canonical.go:99-139 | Which spelling a character gets: a backslash and a letter exactly if JSON has a letter for it other than the solidus, the six-byte escape exactly if it is another one below U+0020, U+0085, U+2028 or U+2029, and itself otherwise |
| Canonical.AppendUnicodeEscape | internal/contract/canonical.go:141-145 | Appends six bytes that are a lowercase JSON escape and read back as the code point |
| Canonical.UnicodeEscapeUnique | internal/contract/canonical.go:97-145 | There is exactly one lowercase escape of a code unit, and it is the one of the table |
| RoundTrip.RoundTrips | internal/contract/json.go:26-47 | Strictly decoding a value's canonical form gives the value back if and only if its numbers are JSON numbers and its depth is at most 64 |
| RoundTrip.CanonInjective | internal/contract/canonical.go:28-75 | If two canonical forms, each followed by bytes that cannot extend a number, are the same bytes, then the values and what follows are the same, at any depth |
| RoundTrip.CanonDecidesEquality | internal/contract/canonical.go:13-23 | Canonical bytes are equal exactly when the values are |
| RoundTrip.CanonReads | internal/contract/json.go:107-168 | With a high enough cap the decoder reads back any value from its canonical form with anything after it |
| RoundTrip.CanonCstPresents | internal/contract/canonical.go:28-139 | The canonical form is a JSON text with no repeated key and no unpaired surrogate that means the value |
| RoundTrip.CanonCstDepth | internal/contract/json.go:14-18 | The nesting of the canonical text is the depth of the value |
| RoundTrip.CanonItemSpells | internal/contract/canonical.go:99-139 | Each entry of the escape table is a JSON string item that denotes its own scalar |
| CanonicalText.CanonIsTheCanonicalText | internal/contract/canonical.go:28-139 | Bytes are the canonical form of a value if and only if they are the text of a JSON tree that means it, holds no white space, has its members in ascending UTF-16 order and spells every character as the escape table says |
| CanonicalText.TreeIsCanon | internal/contract/canonical.go:28-139 | Every such tree is spelled by the canonical form of what it means |
| CanonicalText.AscendingIsSorted | internal/contract/canonical.go:58 | A list of keys is in the order of the serializer exactly if each is lexicographically before all later ones in code units |
| RoundTrip.AcceptedIsSerializable | internal/contract/canonical.go:25-27 | Every tree the decoder accepts meets the serializer's preconditions |
| RoundTrip.MeaningIsSerializable | internal/contract/canonical.go:25-27 | So does the meaning of every JSON text within the depth cap |
| StrictDecode.StrictIffAdmissible | internal/contract/json.go:20-47 | The decoder accepts bytes with a value if and only if they are one JSON text of the grammar, at most 64 deep, with no key repeated after unescaping and only scalars in its strings, and the value is what that text means |
| StrictDecode.AcceptsAdmissible | internal/contract/json.go:26-47 | Every admissible document is accepted with its meaning |
| StrictDecode.AcceptedIsAdmissible | internal/contract/json.go:26-47 | Whatever is accepted is the text of an admissible document with that meaning |
| StrictDecode.DecodeStrict | internal/contract/json.go:26-47 | The method returns the decision and the value that StrictIffAdmissible characterises, with the error that Refusals.RefusedForFault, RefusedAsBytes and RefusedForTrailing explain |
| StrictDecode.DecodeValue | internal/contract/json.go:107-127 | One value off the token stream: the reader stands right behind it, or an error is returned |
| StrictDecode.DecodeArray | internal/contract/json.go:155-168 | The elements up to the closing bracket, in order |
| StrictDecode.DecodeObject | internal/contract/json.go:129-153 | The members up to the closing brace, a repeated key being an error |
| Refusals.RefusedForFault | internal/contract/json.go:26-168 | On every JSON text: refused for a surrogate if and only if a string denotes an unpaired one, and otherwise for the first container too many or repeated key in document order, if there is one; accepted if there is none |
| Refusals.RefusalNamesTheFault | internal/contract/json.go:107-153 | A text with repeated keys and no container too many is refused for a repeated key, one with only a container too many for its depth, and neither is named where it is not there |
| Refusals.RefusedAsBytes | internal/contract/json.go:31-33 | Bytes are refused as no UTF-8 if and only if they encode no characters |
| Refusals.RefusedForTrailing | internal/contract/json.go:44-46 | Trailing data is reported only behind an admissible value that starts the text |
| Refusals.TrailingIsRefused | internal/contract/json.go:44-46 | And it always is reported there, when the bytes pass the checks on raw text and what follows does not go on with a number |
| Refusals.FaultExplains | internal/contract/json.go:129-168 | A tree has a first fault exactly if it repeats a key or is nested too deep, and the fault is one it has |
| Refusals.ValueRefused | internal/contract/json.go:107-168 | The recursive descent stops at the first fault of a value with the error of that fault, wherever the value stands |
| Decoder.ValueComplete | internal/contract/json.go:107-127 | Any well-formed value without repeated keys and within the cap is read as its meaning, with the reader right behind it, whatever white space precedes it and whatever follows that cannot extend a number |
| Decoder.ElemsComplete | internal/contract/json.go:155-168 | The same for the elements of an array from any position in it |
| Decoder.MembersComplete | internal/contract/json.go:129-153 | The same for the members of an object, keys distinct from those already read |
| DecoderSoundness.ValueSound | internal/contract/json.go:107-127 | Whatever was read as a value is the text of a well-formed tree with that meaning, without repeated keys and within the cap |
| DecoderSoundness.ElemsSound | internal/contract/json.go:155-168 | The same for what was read as elements |
| DecoderSoundness.MembersSound | internal/contract/json.go:129-153 | The same for what was read as members |
| Lexer.NumberIffScanned | internal/contract/canonical.go:37-38 | The reader takes a whole lexeme exactly when it is a JSON number |
| Lexer.ReadStringComplete | internal/contract/json.go:136-147 | A string literal reads as the scalars its escapes and characters denote |
| Lexer.ReadStringSound | internal/contract/json.go:136-147 | Whatever reads as a string body is a sequence of JSON string items |
| SurrogateScan.RejectEscapedSurrogates | internal/contract/json.go:58-91 | The loop decides, for any bytes, what ScanIffScalarOnly characterises on JSON texts |
| SurrogateScan.ScanIffScalarOnly | internal/contract/json.go:49-91 | On every well-formed JSON text the raw scan passes if and only if no string literal in it, key or value, denotes an unpaired surrogate |
| SurrogateScan.ScanIffLiteralsScalar | internal/contract/json.go:49-91 | On every sequence of JSON tokens and white space, a document or not, the raw scan passes if and only if no string literal in it denotes an unpaired surrogate |
| SurrogateScan.PassesItems | internal/contract/json.go:61-89 | Inside a string the scan never takes the second backslash of an escaped backslash for an escape, and stops exactly at an unpaired surrogate |
| Grammar.HexUnitReads | internal/contract/json.go:93-103 | Four bytes read as a code unit if and only if they spell it in hexadecimal, in any mixture of cases |
| Grammar.HexTable | internal/contract/json.go:98-102 | The value of each of the sixteen digits, in both cases, is its place in the list |
| Grammar.ShortTable | internal/contract/canonical.go:105-116 | The eight letters of the two-character escapes and the characters they stand for, listed |
| Grammar.CharacterClasses | internal/contract/json.go:107-127 | Digits, signs, exponent letters and white space, each listed character by character |
| Examples.DepthCap | internal/contract/json.go:14-18 | Arrays nested in each other are read if and only if there are at most sixty-four of them |
| Examples.LiteralNames | internal/contract/json.go:107-127 | null, true and false, read and written |
| Examples.TwoMembers | internal/contract/canonical.go:53-71 | An object of two members, byte for byte: the smaller key first, keys quoted, a colon and a comma |
| LineSafety.CanonFramable | internal/spool/writer.go:237-241 | Append never refuses the canonical form of a value with JSON numbers |
| LineSafety.DecodedFramable | internal/contract/canonical.go:126-135 | Nor that of anything the decoder accepted |
| LineSafety.CanonClean | internal/contract/canonical.go:99-139 | The canonical form is valid UTF-8 with no line-break character |
| LineSafety.CleanHasNoBreak | internal/spool/writer.go:46-51 | In such bytes no line break occurs as a byte substring, across token and character boundaries included |
| LineSafety.LineBreakTable | internal/spool/writer.go:46-51 | The five line breaks, listed |
| EventLine.ParseEventLine | internal/contract/event.go:94-131 | The checks in the order of the code, the byte bound first, and on success the canonical bytes of the decoded tree as digest input |
| EventLine.AcceptsExactlyEvents | internal/contract/event.go:94-131 | A line is accepted with a value if and only if it has at most the given number of bytes, or 256 KiB if none is given, and is the text, without a newline in it and with or without one behind it, of an admissible JSON document whose value is an object that conforms; the digest input is that value's canonical form |
| EventLine.RefusedUnread | internal/contract/event.go:94-104 | A line is refused as oversized if and only if it has more bytes than the bound, and as more than one line if and only if it is within it and has a newline before its last byte |
| EventLine.RefusedRead | internal/contract/event.go:105-131 | A line that holds an admissible document is refused as no object exactly if that is something else, and as nonconforming exactly if it is an object that does not conform |
| EventLine.DigestIffSameTree | internal/contract/canonical.go:13-23 | Two lines, each accepted under its own bound and profile, feed the same bytes to the digest if and only if they decode to the same tree |
| EventLine.DigestIgnoresSpelling | internal/contract/event.go:94-131 | Two spellings of events, with or without the newline, each under its own bound and profile, hash alike exactly when they mean the same value, so white space, member order and escape spelling never matter and number lexemes always do |
| EventLine.CanonicalLineReparses | internal/contract/event.go:94-131 | The canonical line of an accepted event is accepted with the same tree and digest input if and only if it is within the byte bound |
| EventLine.CanonicalLineOutgrows | internal/contract/event.go:98-100 | A line accepted at a bound of its own length whose canonical line is refused there as oversized |
| DuplicateKeys.ContainsDuplicateKey | fixtures/corpus_test.go:169-207 | The loop over an explicit stack of frames decides what ScanAgreesIff characterises |
| DuplicateKeys.ScanAgreesIff | fixtures/corpus_test.go:166-207 | On every JSON text of any nesting the scan reports no repeat that is not there, and misses one if and only if a number too large for a float64 comes before the first repeated key |
| DuplicateKeys.ScanAgreesWhenFit | fixtures/corpus_test.go:166-207 | On every JSON text whose numbers all fit a float64 the scan answers exactly as the recursive definition behind the decoder |
| DuplicateKeys.ScanDocument | fixtures/corpus_test.go:169-207 | The scan answers true exactly when a repeated key is the first notable thing in the text |
| DuplicateKeys.UniqueIffNoRepeat | internal/contract/json.go:129-153 | A text has no repeated key in the sense of the decoder exactly when the marks the scan looks for hold none |
| DuplicateKeys.ScanMissesRepeat | fixtures/corpus_test.go:169-207 | A text with an overflowing number and a repeated key after it that the scan does not report |
| EndToEnd.SpoolReadsBack | internal/spool/writer.go:230-310 | Canonical forms appended by any processes through any interleaving, failure and crash are read back, line by line and strictly decoded, as all acknowledged values in order and besides them only submitted ones; every line decodes and is its value's canonical form |
| EndToEnd.CanonicalRecordsAreAccepted | internal/spool/writer.go:230-241 | Append never turns a canonical form away |
| EndToEnd.SplittersAgree | internal/spool/writer.go:46-51 | A spool of canonical records is valid UTF-8, and splitting its bytes at newlines or its characters at any Unicode line break gives the same records |

## Left out

- Polling, cursors, gap and overflow records, rotation, retention, checkpoints: specified in
  `docs/event-contract.md` and not implemented.
- System calls: each succeeds or fails by a free choice, and a failed close still gives its
  descriptor up. Creating the lock directory and checking the lock file's type and device
  change nothing the model holds and are part of whether the lock is taken.
- The source slug: whether it is valid is an input of `Writer.Open`; the slug grammar itself
  is a short check.
- Number-to-float conversion, SHA-256, schema validation, `time.Parse`: see the assumptions.
- The value types outside a strict-decode tree, which `appendCanonical` refuses
  (`internal/contract/canonical.go:72-74`): the `Value` datatype has none.
- `slices.SortFunc`: insertion stands in for it; what is used of it is a sorted list of the
  same keys, and `Canonical.SortedUnique` shows there is only one.
- Texts of errors, and the lint warning for long summaries. Which error a malformed text draws
  from `encoding/json` is not said: it is refused (`StrictDecode.StrictIffAdmissible`).
- `internal/contract/manifest.go`, `internal/contract/slug.go`, `profileSchema`,
  `internal/fixturegen`, `classifyMountType` and the platform tables: field copying, simple
  checks and table lookups.
- More than one source: sources share no file and no lock, so one is modelled.
- SpoolConcurrent.Guard: covers the lock file's inode; the events file keeps its inode for
  as long as the host is up, because no code removes it, and the model takes that as given.
- Writer.Open: every open of a spool is at one mode. A spool may go on at a weaker mode
  (`SpoolSafety.ModeMayWeaken`); one whose appends were acknowledged at process-crash mode and
  that is opened at host-loss mode later is not covered. Host loss is not an event of the
  method; `Spool` and `SpoolConcurrent` have it between any two system calls, and the method
  is proved to make a run of the former.
- Durability.ProbeMode: the deferred close and remove that run after a success are no-ops in
  the code and are not recorded.
- MountInfo.MountTypeForDevice: reads decoded characters; a line that is not valid UTF-8 is
  not modelled.
