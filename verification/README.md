# A verified model of nrf-softsim

nrf-softsim runs a software SIM beside the nRF91 modem. The modem queues requests from an interrupt;
a worker thread serves them with a SIM core whose files live in Zephyr's NVS flash store, behind a
ten-slot write-back cache. This project models the cache and file shim (`lib/ss_fs.c`,
`lib/ss_cache.c`), the request worker (`lib/nrf_softsim.c`), the AES and CMAC helpers
(`lib/ss_crypto.c`) and provisioning, and proves what they promise together.

## The main results

* **The cache is invisible.** Every file operation, with its evictions, loads, commits and
  failures, is a legal step of a plain map from file to contents (`PlainFs`). `FileSystem.Valid()`
  says that the whole history since the first boot is a legal run of that map ending in what RAM and
  flash now show; every method keeps it, whatever flash and heap refuse.
* **Crash consistency over every run.** Lose power after any number of steps, or between two flash
  writes of one call: each file holds exactly its contents at its last successful commit
  (`Durability.CrashConsistency`, `EveryFlashStateConsistent`). Booting again over the flash of any
  valid file system gives just that (`Recovery.PowerCycle`).
* **The worker's durability promise.** Whatever the SIM core did, after INIT, RESET, DEINIT, an
  ENVELOPE or an unknown request nothing visible is missing from flash unless NVS refused a write
  (`Softsim.ServeOne`), so a power loss then costs nothing (`PowerLossAfter`).
* **The request protocol, over every interleaving** of interrupt and worker: each delivered request
  gets exactly one completion call, from worker or interrupt handler; those that got a node are
  answered in order and released with their payload; no wakeup is lost; the queue drains; contexts
  are accounted for; and a modem that keeps sessions never makes the core see a NULL context
  (`Protocol`). The worker's code is a run of that machine (`Softsim.ReqTask`).
* **The cursor** stays inside the open file over a run exactly while its writes and seeks are in
  range (`PlainFs.CursorRun`), so a client that keeps to that may always read.
* **Provisioning** writes what the profile says and reads it back, and two profiles that differ only
  in keys leave the same flash (`Provisioning.ProvisionTwins`).
* **Directory parsing** returns the longest encodable prefix of the flash record, and refuses a
  table exactly when two names hash alike. FNV-1a never confuses names that differ in one byte.
* **In-place chunked AES** equals whole-buffer CBC or leaves zeros, and decryption undoes encryption.

`Bytes`, `Fnv`, `DirTable` and `SlotTable` follow `lib/ss_cache.c`; `HashBits` and `Paths` evaluate the
hash on fixed paths; `PlainFs` and `Durability` are the
specification and its theorems; `Cache` and `Steps` connect one to the other on plain values;
`Platform`, `FileSystems` and `Recovery` are the mutable system; `SimCore`, `Protocol` and `Workers`
the worker; `Cbc` and `Crypto` the cryptography; `Provisioning` the profile writer.

## Choices

* NVS, the heap and PSA may fail at any call. A ghost counter goes up when one does, so a contract
  can say "fails only if flash or heap did". NVS keeps a ghost journal of the states it has been in.
* `docs/architecture.md:135-138` speaks of a linked list; the code builds an array, and the model
  follows the code.
* `FS_READ_ONLY` is bit 8 of a flags byte, so the test for it never holds
  (`FileSystems.CommitsOnClose`).
* The table check looks at hashes only and accepts two files under one NVS key
  (`DirTable.SharedKeyAccepted`). The file system results assume a DIR record without shared keys
  and without the key of DIR itself (`Cache.GoodDir`).
* A failed read of DIR trips an assertion in the code; it is modelled as a mount that fails. If the
  buffer for DIR cannot be had, the code goes on with no data; that is modelled as an empty record.
* `ss_fseek` with SEEK_SET or SEEK_END takes its offset modulo 2^16 and can leave the cursor past the
  end of the file; the exact condition is `PlainFs.SeekStaysInside`. `ss_fread` from there computes a
  negative count that wraps: it stays inside the file exactly when the cursor does
  (`PlainFs.ReadStaysInside`); `PlainFs.SeekPastEnd` is such a run.
* A request that gets no node keeps its payload: nothing frees it. At rest every delivered payload
  has been freed exactly when no such request carried one (`Protocol.PayloadsFreedExactlyWhen`).
* The answer goes to the modem before the commit, so a commit NVS refuses is only logged.

## Model

| member | source | states |
|---|---|---|
| `Fnv.Fnv1a` | lib/ss_cache.c:26-35 | the byte loop computes the 32-bit FNV-1a hash defined by recursion from the last byte |
| `Fnv.MulUndone` | lib/ss_cache.c:26-35 | multiplying by the FNV prime modulo 2^32 is undone by multiplying by its inverse |
| `Fnv.SuffixCancels` | lib/ss_cache.c:26-35 | a common suffix never decides a collision: two paths collide with it exactly when they collide without it |
| `Fnv.NearPathsDiffer` | lib/ss_cache.c:26-35 | paths that differ in one byte never collide |
| `Paths.HashOfA` | lib/ss_cache.c:26-35 | the hash of "a" is 0xe40c292c, the published FNV-1a test vector |
| `Bytes.XorBits` | lib/ss_cache.c:26-35 | bit k of the XOR is set exactly when bit k of its operands differs |
| `DirTable.ParsedPrefix` | lib/ss_cache.c:48-58 | re-encoding what was parsed gives a prefix of the DIR record, so nothing past its end is read |
| `DirTable.ParseIsLongestPrefix` | lib/ss_cache.h:44-58 | the parse is the longest list of records whose encoding is a prefix of the blob: a list is a prefix of the parse if and only if its encoding is one of the blob |
| `DirTable.ParseEncode` | lib/ss_cache.h:44-58 | round trip, also with a truncated record behind it |
| `DirTable.CountRecords` | lib/ss_cache.c:48-58 | the counting pass counts exactly the parsed records |
| `DirTable.FillTable` | lib/ss_cache.c:71-81 | the filling pass writes the entry of every record, in order, and never outgrows the array |
| `DirTable.HasClash` | lib/ss_cache.c:86-96 | the pairwise check finds a clash if and only if two entries share a hash |
| `DirTable.TableFromBlob` | lib/ss_cache.c:38-100 | 0 exactly for a blob without records, -1 exactly when memory is refused or two names collide, else the whole table with distinct hashes; entry i has the two bytes after the name length as its key, the first of them as its flags, no hits, and the hash of the name |
| `DirTable.TableIsBlob` | lib/ss_cache.c:71-81 | the entries are those of consecutive records from offset 0 on, up to the end or a record that is cut off |
| `Paths.CollidingPair` | tests/cache/src/main.c:181-201 | "/3f00/07a0f5" and "/3f00/0aec20" both hash to 0x38902ebd, so a table that lists both is refused |
| `Cache.BootListsRecord` | lib/ss_fs.c:98-149 | a mount lists every record of NVS record 1 under its key, committed on close exactly when the key is at least 0x8000 |
| `Cache.BootListsOnly` | lib/ss_fs.c:98-149 | and lists nothing else |
| `DirTable.ClashIsCollision` | lib/ss_cache.h:18-23 | two entries clash if and only if two names of the record hash alike |
| `DirTable.DirFind` | lib/ss_cache.c:103-114 | the first entry with the hash of the NUL-terminated name, or -1 when there is none |
| `DirTable.IndexAgreesWithNames` | lib/ss_cache.h:18-23 | in an accepted table a listed name finds its own record; an unlisted name is served a file exactly when it collides with a listed one |
| `DirTable.SharedKeyAccepted` | lib/ss_cache.c:84-97 | a table that lists one NVS key twice is accepted |
| `DirTable.NearNamesNeverRefused` | lib/ss_cache.c:84-97 | any table is refused if and only if some colliding pair of its names is not one that differs in a single byte |
| `SlotTable.SlotFind` | lib/ss_cache.c:117-126 | the first loaded slot of that entry, or -1 when none holds it |
| `SlotTable.SlotAcquire` | lib/ss_cache.c:129-174 | one scan with three running minima returns the first free slot, else the victim every other slot loses to: clean and large enough, then clean, then any, fewest hits, lowest index |
| `SlotTable.ChoiceIsUnique` | lib/ss_cache.h:82-99 | the documented preference names exactly one slot |
| `SlotTable.ChoiceSpelledOut` | lib/ss_cache.h:82-99 | the choice in the header's words: first free slot, else first with the fewest hits of the clean slots with room, of the clean slots, or of all |
| `SlotTable.VictimIsBest` | lib/ss_cache.c:129-174 | the three minima pick the best slot, and a dirty one only if all are dirty |
| `PlainFs.SeekStaysInside` | lib/ss_fs.c:390-411 | a seek leaves the cursor inside the file if and only if it is relative or its offset modulo 2^16 is at most the length |
| `PlainFs.SeekPlace` | lib/ss_fs.c:390-411 | where a seek goes, for every offset: to it, by it but not past the last byte, or back from the end, modulo 65536; with another whence nowhere |
| `PlainFs.SeekSpelledOut` | lib/ss_fs.c:390-411 | the same for places within 16 bits, without the modulus |
| `PlainFs.ReadAfterSeek` | lib/ss_fs.c:263-411 | a read after a seek to o returns the bytes of the file from o |
| `PlainFs.ReadStaysInside` | lib/ss_fs.c:263-279 | the element count stays inside the file if and only if the cursor is; there it is the whole elements left, capped by the request |
| `PlainFs.InvRun` | lib/ss_fs.c:98-555 | on every run every file stays storable, listed keys stay distinct, the open file exists, and the DIR record never changes |
| `PlainFs.CursorRun` | lib/ss_fs.c:263-555 | from a state with the cursor inside the open file, it is inside after every step of a run if and only if every write ends within the file and every absolute seek has an offset, modulo 2^16, within it |
| `PlainFs.SeekPastEnd` | lib/ss_fs.c:390-411 | a concrete run that leaves the cursor past the end, from where a read is not refused |
| `PlainFs.FlashStateAt` | lib/ss_fs.c:152-164 | flash after its write j is the durable map right after the event of the run that made write j |
| `PlainFs.WroteStepWrites` | lib/ss_fs.c:515-555 | a write puts its bytes at the cursor, cut at the old length, changes no other byte and no other file, and moves the cursor behind them |
| `PlainFs.PutStepPuts` | lib/ss_fs.c:424-453 | a put sets one byte, grows the file to it if need be and changes no other |
| `PlainFs.RemovedStepRemoves` | lib/ss_fs.c:480-513 | a removal unlists one path; its file is gone, or is the record flash kept; no other file changes |
| `PlainFs.ProvisionedStepPlaces` | lib/ss_fs.c:629-642 | a provisioned path shows its record in RAM and on flash and is not committed on close; no other file changes |
| `Durability.FlashFrozen` | lib/ss_fs.c:152-164 | between two stores of a file its flash record does not move |
| `Durability.CrashConsistency` | lib/nrf_softsim.c:335-339 | after any prefix of any run a power loss leaves every file with its contents at its last successful commit, provision or erasure |
| `Durability.EveryFlashStateConsistent` | lib/ss_fs.c:167-180 | the same for every state flash was ever in, also inside a call that writes several records: after write j it is what the run up to that write says |
| `Recovery.JournalConsistent` | lib/ss_fs.c:167-180 | so for every entry of the journal of NVS under a valid file system |
| `Durability.CleanCloseSurvives` | lib/ss_fs.c:365-388 | contents closed well under commit-on-close are what RAM and flash hold until the client writes, removes or provisions the file, through any commits, evictions, remounts and power losses |
| `Durability.CleanCloseComesBack` | lib/ss_fs.c:365-388 | written again but not stored again, the file comes back from a power loss as it was closed |
| `Recovery.CrashLosesExactly` | lib/ss_fs.c:152-180 | a power loss costs a file if and only if a dirty slot holds it with contents other than its flash record |
| `Recovery.Remount` | lib/ss_fs.c:98-203 | deinit then init lists every formerly listed path under its key with its former contents, and fails only if flash or heap did; a deinit that was refused a write leaves everything as it was |
| `Recovery.ReopenRemoved` | lib/ss_fs.c:480-513 | a path removed from flash does not open after a remount lists it again |
| `Durability.RemovedStaysGone` | lib/ss_fs.c:480-513 | an erased path never opens again, through mounts and power losses that list it anew, unless it is provisioned |
| `Durability.OnlyOpenFileChanges` | lib/ss_fs.c:206-555 | no operation changes the contents of a file other than the open one |
| `Cache.ViewDetermined` | lib/ss_cache.h:31-42 | what the cache shows is a function of RAM and flash |
| `Cache.CleanMeansSynced` | lib/ss_fs.c:167-180 | with no dirty slot flash equals what is seen |
| `Cache.CompactListing` | lib/ss_fs.c:499-510 | moving the last entry into the hole unlists the removed path and no other |
| `Cache.FileRemoved` | lib/ss_fs.c:480-513 | dropping the slot, moving the last entry and renumbering its slot keeps every other file's contents |
| `Cache.SlotHidesStore` | lib/ss_fs.c:629-673 | a record written behind the cache to a buffered file is seen if and only if it equals what the slot holds |
| `Steps.CommitStep` | lib/ss_fs.c:152-164 | writing a slot back refines a commit of its file |
| `Steps.DropStep` | lib/ss_fs.c:281-338 | evicting a clean slot cannot be observed |
| `Steps.FillStep` | lib/ss_fs.c:281-338 | loading a record into a free slot cannot be observed |
| `Steps.WriteStep` | lib/ss_fs.c:515-555 | an update of the slot that shows the overlaid bytes refines a write of the plain file |
| `Steps.RemoveStep` | lib/ss_fs.c:480-513 | removal with renumbered slots refines removing the path from the plain map |
| `Steps.MountStep` | lib/ss_fs.c:98-149 | building the table from DIR refines mounting the boot listing |
| `Steps.UnmountStep` | lib/ss_fs.c:183-203 | dropping all clean slots refines unmounting |
| `Steps.TrackStep` | lib/ss_fs.c:98-555 | a refined step extends the legal run the file system has made, and flash its journal |
| `FileSystems.CommitsOnClose` | lib/ss_cache.h:12-13 | the flag test holds exactly when bit 7 is set; the read-only bit cannot be |
| `FileSystems.FileSystem.CommitSlot` | lib/ss_fs.c:152-164 | success stores the file and clears only its dirty bit; refusal changes nothing |
| `FileSystems.FileSystem.PortCommitFs` | lib/ss_fs.c:167-180 | 0 if and only if NVS refused nothing, and then flash equals the view; only unsaved files are written, nothing visible changes, and a refused write does not stop the rest: as many slots stay dirty as writes were refused |
| `FileSystems.FileSystem.LoadToSlot` | lib/ss_fs.c:281-338 | the preferred victim, no other, gets the record with the cursor at 0 and a reused buffer wiped behind it; a dirty victim is saved first; it fails only when flash or heap did, and then leaks nothing |
| `FileSystems.LoadedSpelledOut` | lib/ss_fs.c:281-338 | the loaded slot byte by byte: the record, then zeros to the end of the buffer |
| `FileSystems.FileSystem.Fopen` | lib/ss_fs.c:206-236 | opens exactly the listed files that have contents unless flash or heap failed; no contents change; the hit count of the path goes up by one to at most 255, no other; a buffered file is rewound, another is loaded |
| `FileSystems.FileSystem.FileSize` | lib/ss_fs.c:243-260 | the length of the visible contents, buffered or not; -1 only if there are none or NVS failed |
| `FileSystems.FileSystem.Fread` | lib/ss_fs.c:263-279 | the next bytes of the file, in as many whole elements as were asked for and are left; the cursor moves behind them and nothing else moves |
| `FileSystems.FileSystem.Fgets` | lib/ss_fs.c:340-363 | the longest run of bytes from the cursor without NUL or newline that fits the buffer, or nothing at the end of the file; the cursor stops right behind it and nothing else moves |
| `FileSystems.FileSystem.Fseek` | lib/ss_fs.c:390-411 | whence 0 sets the cursor to the offset, 1 moves it by it but not past the last byte, 2 goes back from the end, any other leaves it; contents and dirty bit stay |
| `FileSystems.FileSystem.Ftell` | lib/ss_fs.c:413-422 | the cursor of the plain file, -1 without one |
| `FileSystems.FileSystem.Fclose` | lib/ss_fs.c:365-388 | 0 if and only if no write was refused; a flagged file closed well is on flash as seen; any other close writes nothing |
| `FileSystems.FileSystem.Fputc` | lib/ss_fs.c:424-453 | one byte of the plain file at the cursor, growing by 20 when full; a failed growth changes nothing |
| `FileSystems.FileSystem.Fwrite` | lib/ss_fs.c:515-555 | overlays the plain file at the cursor; the buffer grows to just the end; the slot turns dirty exactly when bytes differ; a failed growth changes nothing |
| `FileSystems.FileSystem.Remove` | lib/ss_fs.c:480-513 | -1 exactly for an unlisted path; else the path is gone, its buffer freed unsaved, and every other slot keeps bytes, cursor and dirty bit |
| `FileSystems.RemovedSpelledOut` | lib/ss_fs.c:480-513 | directory and slots after a removal, entry by entry |
| `FileSystems.FileSystem.InitFs` | lib/ss_fs.c:98-149 | no-op when mounted; else, unless flash or heap failed, mounts if and only if DIR lists files and no two names collide; a failure changes nothing |
| `FileSystems.FileSystem.DeinitFs` | lib/ss_fs.c:183-203 | unmounts if and only if everything could be saved, with no heap block left; else stays mounted with its contents |
| `FileSystems.FileSystem.StoreRecord` | lib/ss_fs.c:629-642 | a listed path shows the record in RAM and on flash and its flags are 0, no others change; else or when refused nothing changes |
| `Recovery.PowerCycle` | lib/ss_fs.c:98-149 | after losing all RAM the next boot shows every file as last committed, and the files that differ from before are exactly those a dirty slot held with other contents |
| `SimCore.RunCore` | lib/ss_cache.h:31-34 | any client that has one file open at a time keeps the file system a refinement of the plain map, and no read of its is past the end unless a write or seek of its went out of range |
| `SimCore.ReadAllowed` | lib/ss_fs.c:263-279 | after in-range writes and seeks since no file was open, the slot's cursor is within its length, as a read needs |
| `Protocol.InvRun` | lib/nrf_softsim.c:226-373 | in every state of every interleaving requests are conserved in order, each turned away has its own error from the handler, no wakeup is lost and contexts created are those freed plus the one held |
| `Protocol.EachCompletedOnce` | lib/nrf_softsim.c:328-373 | on every run the completion calls of worker and handler and the requests still waiting are, by command and id, exactly the requests delivered; at rest the calls alone are |
| `Protocol.AnswersInKind` | lib/nrf_softsim.c:241-333 | on every run the worker answers APDU, RESET and DEINIT with res and an unknown request with err |
| `Protocol.InitAnswer` | lib/nrf_softsim.c:242-269 | INIT is answered with res exactly when there was a context or one was granted |
| `Protocol.WhichCommit` | lib/nrf_softsim.c:236-239 | what commits: everything but an APDU, and an APDU exactly when it has a second byte and that is 0xC2 |
| `Protocol.ServeCases` | lib/nrf_softsim.c:241-333 | context, answer and calls for each command; an APDU polls first exactly when its second byte is 0xF2 |
| `Protocol.InitCases` | lib/nrf_softsim.c:242-269 | the calls of INIT written out for every case of context, suspension and grant |
| `Protocol.PayloadsFreedExactlyWhen` | lib/nrf_softsim.c:341-364 | at rest every delivered payload has been freed if and only if no request that was turned away carried one |
| `Protocol.RefusedPayloadStays` | lib/nrf_softsim.c:360-364 | a concrete run in which one stays |
| `Protocol.QuiescentMeansDone` | lib/nrf_softsim.c:328-373 | at rest every accepted request has its own single answer, its node and payload are released once, and every other delivered request was turned away with its own error |
| `Protocol.NeverStuck` | lib/nrf_softsim.c:231-231 | unless at rest some step other than a delivery can happen |
| `Protocol.AlwaysSettles` | lib/nrf_softsim.c:226-373 | once the modem pauses every schedule ends within the work left, at rest |
| `Protocol.NeverNull` | lib/nrf_softsim.c:242-327 | if APDU and RESET only follow an INIT answered with res, the core never receives NULL on any run |
| `Protocol.NullExactlyWhen` | lib/nrf_softsim.c:270-327 | serving a request hands the core NULL if and only if it is an APDU or RESET without a context |
| `Protocol.ResetAfterDeinitIsNull` | lib/nrf_softsim.c:297-327 | DEINIT then RESET is a run in which it does |
| `Protocol.TurnRuns` | lib/nrf_softsim.c:231-350 | one pass of the loop is take, execute, finish, and keeps the invariant |
| `Workers.Softsim.ReqHandler` | lib/nrf_softsim.c:353-373 | a request with a node goes last in the queue and then wakes the worker; one without is answered with an error and nothing is queued |
| `Workers.Softsim.StartSession` | lib/nrf_softsim.c:242-269 | INIT makes a context only if there is none, errs if it cannot, and resets and mounts only a card that is not suspended |
| `Workers.Softsim.EndSession` | lib/nrf_softsim.c:297-315 | DEINIT frees the context and unmounts only if there is one that is not suspended |
| `Workers.Softsim.Execute` | lib/nrf_softsim.c:241-333 | res to everything but an unknown request and an INIT that gets no context; a poll exactly for a second byte 0xF2; only INIT and DEINIT move context and mount; all as the protocol's step says |
| `Workers.Softsim.ServeOne` | lib/nrf_softsim.c:241-347 | one answer, payload and node freed once; whatever the core did, after anything but an APDU, and after an APDU with second byte 0xC2, nothing visible is missing from flash unless NVS refused, exactly if that commit was refused nothing; after any other APDU the worker itself writes nothing |
| `Workers.Softsim.ReqTask` | lib/nrf_softsim.c:226-351 | the drain loop is a run of the protocol; on return everything accepted, also meanwhile, is answered and its node freed, every delivered request has had its one completion call, and flash is complete if the last request was no APDU or an ENVELOPE |
| `Workers.PowerLossAfter` | lib/nrf_softsim.c:335-339 | a power loss right after a request that is no APDU, or an APDU with second byte 0xC2, loses nothing unless NVS refused |
| `Cbc.RoundTrip` | lib/ss_crypto.c:154-220 | decryption undoes encryption of whole blocks, for every invertible block cipher and start |
| `Cbc.XorBlock` | lib/ss_crypto.c:188-220 | bit by bit the result is set exactly where the two blocks differ |
| `Cbc.CbcBits` | lib/ss_crypto.c:154-220 | the CBC equations in both directions on the bits: block j of the output is the cipher of the one block that is its input chained with the previous ciphertext, or is the deciphered input chained with it |
| `Cbc.CbcEquation` | lib/ss_crypto.c:188-220 | each ciphertext block is the cipher of its plaintext block combined with the ciphertext before it |
| `Cbc.DecryptEquation` | lib/ss_crypto.c:154-186 | each plaintext block is the deciphered block combined with the ciphertext before it |
| `Cbc.StreamStep` | lib/ss_crypto.c:45-75 | feeding a part keeps output plus held-back bytes equal to a prefix of the whole transform |
| `Crypto.CipherInPlace` | lib/ss_crypto.c:45-75 | block by block over one buffer equals the transform of its former contents, without overwriting input not yet read; without faults it succeeds if and only if the length is whole blocks |
| `Crypto.AesCbc` | lib/ss_crypto.c:154-220 | the buffer becomes the CBC transform under a zero start, or all zeros on a bad length, unknown key or fault |
| `Crypto.OtaCalcCc` | lib/ss_crypto.c:78-140 | 0 exactly for AES-CMAC under KID without fault, and then the tag, cut to length, of the whole blocks of the first part and all of the second |
| `Crypto.WholeMessageFed` | lib/ss_crypto.c:100-133 | the whole message is authenticated if and only if the first part is whole blocks |
| `Provisioning.BuildA001` | lib/ss_fs.c:614-618 | the KI tag at 0, the decoded second half of the profile's field at 16, zeros elsewhere |
| `Provisioning.BuildA004` | lib/ss_fs.c:620-627 | the six header bytes, the KIC tag at 6, the KID tag at 22, zeros up to 38, then 0xFF |
| `Provisioning.SmspRewrite` | lib/ss_fs.c:675-712 | byte by byte: the SMSC wins over the SMSP record, which wins over what the file had; the length stays |
| `Provisioning.ProvisionTwins` | lib/ss_fs.c:600-605 | two devices in the same state, provisioned with profiles that differ only in KI, KIC and KID, end with the same flash |
| `Provisioning.ReadsBack` | lib/ss_fs.c:592-726 | after writing to distinct paths each shows its own record, in RAM and on flash |
| `Paths.TargetHashesDiffer` | lib/ss_fs.c:33-37 | no two of the five provisioned paths have the same hash; each hash is computed |
| `HashBits.HashOne` | lib/ss_cache.c:26-35 | the hash of a path with one more byte, digit by digit in hexadecimal |
| `Paths.PathsSpelled` | lib/ss_fs.c:33-37 | the byte constants spell the five provisioned paths |
| `Provisioning.TargetsDistinct` | lib/ss_fs.c:33-37 | so no two records of a profile go to the same file |
| `Provisioning.OthersStay` | lib/ss_fs.c:629-673 | storing to other paths leaves what a path shows |
| `Provisioning.PortProvision` | lib/ss_fs.c:592-726 | 0 means that IMSI, ICCID, A001, A004 and, if given, SMSP show their own record, written in order; an error stops after a prefix and, unless flash or heap failed, means that DIR lacks a path or EF.SMSP has a wrong length; what is overlaid is what EF.SMSP showed at the mount; what was written reads back |

## Left out

- FileSystems.FileSystem.Fgets: is for a buffer of at least one byte, because the code writes its terminator without asking.
- FileSystems.FileSystem.Fread: is for a cursor inside the file; from outside the code reads past its buffer, and `PlainFs.ReadStaysInside` gives the exact condition and `PlainFs.CursorRun` the runs that meet it.
- FileSystems.FileSystem.Fwrite: is for an end within the 16-bit cursor and a nonzero element size when the buffer must grow, because the code divides by that size and its cursor wraps otherwise.
- FileSystems.FileSystem.Fputc: is for a cursor inside the buffer or the 20 bytes it grows by, and a size within 16 bits, because the code writes outside the buffer otherwise.
- FileSystems.FileSystem.Remove: does not remove the file that is open, because its handle would dangle.
- FileSystems.FileSystem.Fopen: does not model two open files at once, which `lib/ss_cache.h:31-34` rules out; the mode argument is ignored as in the code.
- Provisioning.PortProvision: is for target files no slot holds, as after boot, because the code writes behind the cache; `Cache.SlotHidesStore` says exactly when that would be seen.
- FileSystems.FileSystem.StoreRecord: is for a file no slot holds, for the same reason.
- Crypto.OtaCalcCc: is for a tag of at most 16 bytes, because the code copies it out of a 16-byte buffer; the whole-block assertion on the first part is not assumed, and `Crypto.WholeMessageFed` says what it is worth.
- Workers.Softsim.ReqTask: lets interrupts land between turns of the loop; the machine in `Protocol` covers every other interleaving.
- File buffers are byte sequences owned by their slot: pointer aliasing is not modelled, but the number of live heap blocks is, so neither a leak nor a double free of a buffer passes.
- The profile layout (field lengths, key tags, hex decoding) comes from onomondo-uicc and is a parameter; its TLV parser is not part of this model.
- NVS wear levelling, the heap and the PSA primitives are abstract; NVS writes are atomic.
- `ss_access`, `ss_mkdir` and `ss_rmdir` (constant results), the 3DES stubs (empty) and `port_check_provisioned` (a comparison with a default IMSI) have no state of their own.
- Key import into PSA, profile validation in `nrf_softsim_provision`, factory reset, heap statistics, logging, samples and build files.
