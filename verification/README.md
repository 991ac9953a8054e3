# Wraith in Dafny

Wraith captures a Linux process, ships the snapshot over TCP, rebuilds it in a fresh process and
only then ends the original. This project models that pipeline and proves what each stage and the
whole of it promise.

| stage | modules | main results |
|---|---|---|
| capture | `Maps`, `MapsProofs`, `Capturer`, `CapturerProofs` | parsing `/proc/<pid>/maps` inverts printing it; a captured snapshot always has a valid layout and matching checksums, and holds exactly the mappings that were read |
| dirty pages | `Delta`, `Blocks` | replaying the dirty pages round after round rebuilds the latest snapshot, for equal sizes exactly when no compared pages collide |
| transfer | `Protocol`, `Transmitter`, `Receiver`, `Transfer` | a snapshot arrives byte for byte exactly under a condition the sender can check; no proper prefix of a session is ever accepted; a reported success means a whole session exactly if no failed write got anything out |
| layout | `Layout` | validation with wrapping arithmetic and neighbour comparisons is exact |
| restore | `Machine`, `Injector`, `Restorer`, `DupProofs`, `RestorerProofs`, `RestorerExamples` | an injected system call that traps is the system call and nothing else, unless a stray trap signal came before it; when a restore succeeds, and when a successful one is exact, both as an if and only if over the snapshot, the stub and the kernel's choices |
| orchestration | `Teleporter`, `TeleporterProofs` | every run is a legal path; over any series of runs, chains included, the number of running instances never falls |
| all of it | `RestorerProgram`, `Pipeline`, `PipelineExample` | a source that is signalled has a live process on the destination, restored from all of it; that process reproduces the source's memory, protections and registers if and only if the restore was exact |

`Words`, `Spans`, `Wrappers` and `Snapshot` hold machine integers, sets of addresses, result types and
the snapshot message.

## How the model is built

Code that works by changing things step by step is a method on a class with the same fields
(`Protocol.Conn`, `Delta.Detector`, `Injector.Tracee`, `Restorer.ProcessRestorer`,
`Capturer.ProcessLock`, `Teleporter.Orchestrator`) or a loop over an array or a sequence. Each method
is proved equal to a function of its inputs and the old state; the promises of the source are then
lemmas about those functions.

What the environment decides is a parameter: which writes succeed (`Conn.writeSucceeds`) and what
failed ones get out (`Conn.cuts`), what the kernel grants and how a resumed child stops
(`Machine.Kernel`), what can be read of the source (`Capturer.Source`), whether the stub can be forked
(`RestorerProgram.Destination`), and how subprocesses, SSH and signals turn out (`Teleporter.Env`). A
theorem that does not restrict a choice in its hypotheses holds for all of them. xxHash-64 and CRC-64
are arbitrary functions. JSON and protocol buffers are arbitrary codecs; a theorem about a transfer asks
only that they carry the messages of that transfer, and `PipelineExample.MigrationHappens` is a run
that meets all conditions together.

Integers have the width of the source: `Words.Wrap64` and its relatives appear wherever Rust or Go
wraps, truncates or masks, and Go's slice-bounds panic is an outcome of its own (`Receiver.Panicked`,
`Protocol.SliceFault`).

## Where the code differs from what is expected of it

- A negative retry limit makes `sendBlockWithRetry` report success without sending anything, so the
  receiver takes an empty snapshot for the real one (`Transfer.NegativeRetriesLoseEverything`). The
  transfer is correct if and only if the limit is not negative, next to the size limits
  (`Transfer.TransferCorrect`). The Python configuration refuses a negative limit; the transmitter's
  command line does not.
- The restore can report success without being exact, in two ways. A dup2 injection that fails is only
  logged, and leaves its code and its registers in the restored process. And the injector takes every
  trap signal for the child's own: one that comes from outside in place of an mprotect passes for
  success, and the region stays writable. A successful restore is exact if and only if no such signal
  came in place of an mprotect, and during the dup2 injections every stop was a trap or the code word was
  not mapped; the one exception is a process that was stopped on the very code and call that the last
  failed injection left (`RestorerProofs.RestoreExactIff`). Three inputs for which it is not exact: a trap
  signal at the mprotect of an "r-xp" page (`RestorerExamples.LostProtection`), another signal during
  a dup2 (`RestorerExamples.SignalledDup`), and, with a kernel that never interferes, an instruction
  pointer in the last two bytes before a page that cannot be executed
  (`RestorerExamples.CodeAtPageEnd`). The exception is not empty (`RestorerExamples.StoppedAtSameCall`).
- A migration can therefore end the source although the copy does not reproduce it; it does so if and only
  if the restore was not exact (`Pipeline.CommitMeansReproduced`, `PipelineExample.CommitCanFallShort`).
- A failed write may have got part of a frame out, and the retry then writes the whole frame behind it.
  The sender reports success, and the stream is the session if and only if no failed write got anything
  out (`Transmitter.SendSnapshot`). One stray byte can be enough for the receiver to take nothing
  (`Transfer.RetryAfterPartialWrite`).
- The comment above the maps parser shows two blanks between fields; with that spacing the path is lost
  (`MapsProofs.TwoBlanksLosePath`). The path is recovered if and only if the first five fields are
  separated by single blanks, as the kernel prints them (`MapsProofs.PathRecoveredIff`).
- A captured snapshot passes the restorer's pre-flight checks if and only if at least one region was
  captured (`CapturerProofs.CapturedPassesValidation`); its layout is valid in any case. With a cooperative
  kernel and a fit stub it restores under the same condition (`Pipeline.CapturedRestoresIff`).
- The receiver counts bytes written, so overlapping blocks can hide a gap: a run that counts as many
  bytes as announced has none if and only if no two blocks overlap
  (`Receiver.FullCountHasNoGapIffDisjoint`); the same byte sent twice is accepted for two
  (`Transfer.RepeatedBlockHidesGap`). A block whose end wraps around 2^64 into range crashes the receiver,
  and nothing else in a data frame does (`Receiver.CrashIffEndWraps`, `Transfer.WrappingBlockCrashes`).
  A run panics for this reason, or because overlapping blocks count more bytes than announced, and for
  no other (`Receiver.PanicExact`, `Transfer.RepeatedBlockPanics`).
- If waiting for the stop fails after ptrace has attached, the source stays attached
  (`Capturer.Capture`).
- A file header says that a stub in the way of a region is detected; `validate` does not do so, and
  `RestorerProofs.OutOfTheWay` asks for it; for a captured snapshot it means that the stub's code word
  touches no captured mapping (`CapturerProofs.OutOfTheWayIff`).
- A failed preflight goes straight to ROLLED_BACK, an edge that the documented graph does not have.

## Model

| member | source | states |
|---|---|---|
| Maps.ParseMaps | wraith-rust/src/memory.rs:59-76 | the loop collects the well-formed lines in order and skips the others |
| MapsProofs.ParseDigitsExact | wraith-rust/src/memory.rs:141-147 | a digit string is accepted exactly when it is hexadecimal and its unbounded value fits 64 bits |
| MapsProofs.HexDigitExact | wraith-rust/src/memory.rs:141-147 | the digits of both cases and their values |
| MapsProofs.ParseHexRoundTrip | wraith-rust/src/memory.rs:141-147 | parsing a printed number of any zero padding gives it back if it is a u64 and refuses it otherwise |
| MapsProofs.ParsePrinted | wraith-rust/src/memory.rs:109-167 | parsing a procfs line gives back start, end, permissions, offset and path, for any padding and inner blanks |
| MapsProofs.ParsedFields | wraith-rust/src/memory.rs:118-167 | each field of the parsed line in terms of the printed one: the numbers, the permissions, the type by the path in brackets or its first character, and the backing file exactly for paths that start with a slash or a dot |
| MapsProofs.ShortLines | wraith-rust/src/memory.rs:123-131 | which field a line of one or two fields is said to miss |
| MapsProofs.SignsAndNothing | wraith-rust/src/memory.rs:141-147 | a number may have one plus sign and must have a digit |
| MapsProofs.NumbersChecked | wraith-rust/src/memory.rs:136-165 | a line is taken exactly when its three numbers fit 64 bits; otherwise the first that does not is named |
| MapsProofs.PathRecoveredIff | wraith-rust/src/memory.rs:120-134 | a nonempty path is recovered if and only if the first five fields are separated by single blanks |
| MapsProofs.TwoBlanksLosePath | wraith-rust/src/memory.rs:111-113 | the spacing of the documented sample line loses the path |
| MapsProofs.ParsePrintedFile | wraith-rust/src/memory.rs:59-76 | a file of printed lines parses to its mappings in order |
| MapsProofs.SkippedVmas | wraith-rust/src/memory.rs:176-202 | skipped are exactly empty, unreadable, vsyscall and vvar mappings |
| CapturerProofs.KeptExact | wraith-rust/src/capturer.rs:51-73 | a mapping is kept exactly when it is nonempty, readable, neither vsyscall nor vvar, and all of it could be read |
| Capturer.RegistersRoundTrip | wraith-rust/src/registers.rs:55-100 | registers captured and put back are the same, with no system call pending |
| Capturer.DumpRegions | wraith-rust/src/capturer.rs:51-73 | a region is read whole or not at all; the dump loop fills exactly the capturable regions and counts exactly the others |
| Capturer.Retain | wraith-rust/src/capturer.rs:75-76 | regions without data are dropped, the order kept |
| Capturer.Capture | wraith-rust/src/capturer.rs:35-104 | the snapshot or the error of a capture; the source is left attached exactly if the kernel refuses to detach or waiting for the stop failed |
| CapturerProofs.CaptureOutcome | wraith-rust/src/capturer.rs:35-104 | exactly when a capture succeeds, in terms of the host, the source and its registers, and which error it ends with otherwise |
| CapturerProofs.KeptRegionSound | wraith-rust/src/capturer.rs:53-62 | a kept mapping becomes a page-aligned region in user space with all its bytes, their checksum, its permissions, type, backing file and file offset |
| CapturerProofs.CapturedSound | wraith-rust/src/capturer.rs:44-92 | all regions of a captured snapshot are sound, checksummed and pairwise disjoint |
| CapturerProofs.CapturedPassesValidation | wraith-rust/src/restorer.rs:114-144 | a captured layout is always valid; the pre-flight checks pass if and only if some region was captured |
| CapturerProofs.CapturedCoverage | wraith-rust/src/capturer.rs:75-76 | an address is in the snapshot exactly when it lies in a mapping that was not skipped and was read |
| CapturerProofs.OutOfTheWayIff | wraith-rust/src/aslr.rs:124-126 | a stub is clear of a captured layout exactly when its code word touches no captured mapping |
| Delta.BuildManifest | wraith-go/pkg/delta/delta.go:64-78 | the loop computes the manifest |
| Delta.Detector.DirtyOffsets | wraith-go/pkg/delta/delta.go:43-55 | the pages that differ from the previous manifest, which the current one replaces |
| Delta.Analyze | wraith-go/pkg/delta/delta.go:91-113 | counts as many dirty pages as a primed detector returns; dirty and clean pages are ceil(len/pageSize) together; the reduction times all pages is the clean pages |
| Delta.PageOffsets | wraith-go/pkg/delta/delta.go:67-76 | page number i of a manifest starts at i times the page size, within the data |
| Delta.ManifestSize | wraith-go/pkg/delta/delta.go:64-78 | a manifest has ceil(len/pageSize) pages |
| Delta.PagesTile | wraith-go/pkg/delta/delta.go:67-76 | the pages of a manifest put end to end are the data |
| Delta.FirstCallAllDirty | wraith-go/pkg/delta/delta.go:39-51 | without an earlier manifest every page is returned, in order |
| Delta.DirtyOffsetsNameDirtyBlocks | wraith-go/pkg/transport/client.go:101-115 | the blocks made for the dirty offsets are exactly the dirty pages, all within the data |
| Delta.ReplaySuffix | wraith-go/pkg/delta/delta.go:43-55 | writing the dirty pages completes the image exactly when the pages not sent already agree |
| Delta.RoundRebuilds | wraith-go/pkg/delta/delta.go:43-78 | one round rebuilds the snapshot if no compared pages collide, and for equal sizes only then |
| Delta.FirstRoundRebuilds | wraith-go/pkg/delta/delta.go:43-51 | the first round rebuilds the snapshot whatever the hash |
| Delta.RoundsRebuildLatest | wraith-go/pkg/delta/delta.go:10-12 | after any number of rounds of any sizes the image is the latest snapshot |
| Protocol.Conn.WriteFrame | wraith-go/pkg/transport/protocol.go:45-58 | three writes in a row append the encoded frame, or on failure a proper prefix of it |
| Protocol.Conn.NextFrame | wraith-go/pkg/transport/protocol.go:177-181 | takes one frame off the input |
| Protocol.FrameRoundTrip | wraith-go/pkg/transport/protocol.go:45-76 | an encoded frame reads back exactly when its payload is under 2^32 bytes |
| Protocol.CutFrameUnreadable | wraith-go/pkg/transport/protocol.go:61-76 | a frame cut anywhere cannot be read, and the error says in which of the three pieces |
| Protocol.StreamRoundTrip | wraith-go/pkg/transport/protocol.go:45-76 | any list of frames concatenated parses back to that list |
| Protocol.BlockRoundTrip | wraith-go/pkg/transport/protocol.go:124-149 | a block survives exactly for data of at most 2^32-21 bytes |
| Protocol.BlockOnTheWire | wraith-go/pkg/transport/protocol.go:45-58 | a block frame byte by byte, all numbers big-endian |
| Protocol.NoSliceFaultInFrames | wraith-go/pkg/transport/protocol.go:139-147 | 20+dataLen cannot wrap for a payload that a frame can carry |
| Transmitter.DelayExactness | wraith-go/pkg/transport/client.go:149 | the delay does not overflow exactly for the first 37 waits |
| Transmitter.RetryTimeBounded | wraith-go/pkg/transport/client.go:145-153 | n waits sleep 100·(2^n-1) ms together, for n up to 37 |
| Transmitter.SendBlockWithRetry | wraith-go/pkg/transport/client.go:143-160 | at most maxRetries+1 attempts; failure exactly when all fail; success sends one copy behind whatever failed attempts got out, or nothing if the limit is negative; at most 100·(2^maxRetries-1) ms of sleep for limits up to 37 |
| Transmitter.FirstTransfer | wraith-go/pkg/transport/client.go:98-115 | a first transfer sends ceil(len/4096) pages with as many bytes as the snapshot has |
| Transmitter.SendPages | wraith-go/pkg/transport/client.go:104-123 | the loop emits the blocks of the session in order; pages and bytes count what was sent, and a failure names the block it stopped at |
| Transmitter.SendSnapshot | wraith-go/pkg/transport/client.go:63-140 | which error a session ends with, for every answer and every failure of a write; on success every byte is accounted for and the session is out exactly if no failed write got anything out; on failure, in that case, exactly the frames before the failing one |
| Receiver.CopyInto | wraith-go/pkg/transport/server.go:137 | copying a block into the buffer changes exactly its bytes |
| Receiver.ReceiveInto | wraith-go/pkg/transport/server.go:99-159 | the receive loop computes the outcome of the stream |
| Receiver.ReceiveOne | wraith-go/pkg/transport/server.go:59-160 | the outcome of a session and the answer that was sent |
| Receiver.WrittenIffSound | wraith-go/pkg/transport/server.go:115-137 | a block is written exactly when it is complete, in range in unbounded integers and matches its checksum |
| Receiver.CrashIffEndWraps | wraith-go/pkg/transport/server.go:120-137 | a data frame crashes the receiver exactly when the end of its block wraps into range |
| Receiver.RefusalExact | wraith-go/pkg/transport/server.go:115-135 | why a data frame is refused: incomplete, out of range, or not matching its checksum, in this order |
| Receiver.OpeningExact | wraith-go/pkg/transport/server.go:59-97 | what a session is refused for before any block, in order, and what the sender is answered |
| Receiver.PanicExact | wraith-go/pkg/transport/server.go:103-159 | a run panics exactly if it meets a block whose end wraps, or completes with more bytes counted than announced |
| Receiver.DisjointRunPanics | wraith-go/pkg/transport/server.go:103-159 | without overlaps only a block whose end wraps makes a run panic |
| Receiver.RunEffect | wraith-go/pkg/transport/server.go:103-159 | only the complete signal leads to acceptance, of the written buffer's first bytesWritten bytes |
| Receiver.AcceptanceExact | wraith-go/pkg/transport/server.go:59-159 | when a session is accepted, as an if and only if |
| Receiver.StreamCarriesFrames | wraith-go/pkg/transport/server.go:103-110 | a stream cut anywhere runs as the frames that arrived whole, which are exactly the first k |
| Receiver.UnknownFramesSkipped | wraith-go/pkg/transport/server.go:150-151 | unknown frames change nothing wherever they come |
| Receiver.SenderErrorRefused | wraith-go/pkg/transport/server.go:145-148 | a sender error before the complete signal is never accepted |
| Receiver.SenderErrorEnds | wraith-go/pkg/transport/server.go:145-148 | a run that gets to a sender error ends with it, whatever follows |
| Receiver.RunErrors | wraith-go/pkg/transport/server.go:103-159 | the errors that the receive loop can end with |
| Receiver.DisjointRunCounts | wraith-go/pkg/transport/server.go:137-138 | for disjoint blocks the count is the number of bytes covered, at most the size, and the size exactly when all are covered |
| Receiver.DisjointRunAccepted | wraith-go/pkg/transport/server.go:155-159 | a completed run without overlaps is accepted with the bytes it covered |
| Receiver.FullCountHasNoGapIffDisjoint | wraith-go/pkg/transport/server.go:155-159 | a full count has no gap if and only if no two blocks overlap |
| Receiver.ArrivalOrderIrrelevant | wraith-go/pkg/transport/server.go:137-139 | disjoint blocks end the same in any order |
| Blocks.LengthCountsCoverage | wraith-go/pkg/transport/server.go:138 | summed lengths count covered bytes exactly when no two blocks overlap |
| Blocks.OrderIrrelevant | wraith-go/pkg/transport/server.go:137 | the buffer that disjoint blocks leave is independent of their order |
| Transfer.BlocksDelivered | wraith-go/pkg/transport/server.go:103-159 | the receive loop undoes the send loop |
| Transfer.SessionReceived | wraith-go/pkg/transport/server.go:59-160 | what the receiver makes of a session, for every size and retry limit |
| Transfer.TransferCorrect | wraith-go/pkg/transport/client.go:63-140 | a snapshot arrives exactly if it is nonempty, at most 128 GB, answered, and the retry limit is not negative |
| Transfer.HandshakeTells | wraith-go/pkg/transport/client.go:71-78 | the handshake carries the sender's host, pid, version and size, and for every size within the limit the number of blocks that follow |
| Transfer.SendToReceiver | wraith-go/pkg/transport/client.go:63-140 | with the receiver's own answer and no failing write the sender succeeds and emits exactly the session; an empty snapshot is given up with the receiver's reason |
| Transfer.Exchange | wraith-go/pkg/transport/server.go:59-160 | both programs together, each reading what the other writes: the snapshot is accepted and the sender reports success |
| Transfer.NegativeRetriesLoseEverything | wraith-go/pkg/transport/client.go:143-160 | with retry limit -1 an empty snapshot is accepted |
| Transfer.WrappingBlockCrashes | wraith-go/pkg/transport/server.go:120-137 | two bytes at offset 2^64-1 crash a receiver of one byte |
| Transfer.RetryAfterPartialWrite | wraith-go/pkg/transport/client.go:143-160 | a first write that fails after one byte and a retry that succeeds: the block counts as sent and the receiver takes nothing |
| Transfer.RepeatedBlockHidesGap | wraith-go/pkg/transport/server.go:137-159 | a repeated one-byte block passes for a snapshot of two bytes |
| Transfer.RepeatedBlockPanics | wraith-go/pkg/transport/server.go:137-159 | a repeated one-byte block crashes the receiver of one byte at the complete signal |
| Transfer.TruncationRefused | wraith-go/pkg/transport/server.go:103-143 | every proper prefix of a session is rejected |
| Transfer.HandshakeAgreement | wraith-go/pkg/transport/client.go:84-96 | the receiver's answer lets the sender proceed |
| Layout.SoundRangeIsExact | wraith-rust/src/aslr.rs:52-93 | the three checks on a wrapped range accept exactly nonempty regions inside user space |
| Layout.SortIsFaithful | wraith-rust/src/aslr.rs:58 | sorting rearranges and does not change whether ranges overlap |
| Layout.Validate | wraith-rust/src/aslr.rs:68-107 | the two loops compute the verdict |
| Layout.VerdictIsHonest | wraith-rust/src/aslr.rs:73-104 | an error names ranges that have the fault, overlaps only among sound ranges |
| Layout.VerdictIsFirst | wraith-rust/src/aslr.rs:73-104 | the first bad range in sorted order is reported, with its first fault, and otherwise the first overlap |
| Layout.NeighboursSuffice | wraith-rust/src/aslr.rs:95-104 | on sorted sound ranges comparing neighbours compares all pairs |
| Layout.ValidationExact | wraith-rust/src/aslr.rs:48-107 | validation succeeds exactly when, in unbounded integers, regions are nonempty, in user space and pairwise disjoint |
| Layout.TotalBytes | wraith-rust/src/aslr.rs:129-131 | the 64-bit sum; on sound layouts the number of distinct addresses, at most 2^47 |
| Layout.SumNeverOverflows | wraith-rust/src/aslr.rs:129-131 | no partial sum of a validated layout exceeds 2^47 |
| Layout.ValidatedIsSound | wraith-rust/src/aslr.rs:68-107 | a validated layout is sound and free of overlaps |
| Layout.RoundUpByMask | wraith-rust/src/aslr.rs:118 | the mask form is rounding up to a page |
| Layout.SafeBaseIsSafe | wraith-rust/src/aslr.rs:114-126 | the safe base is page-aligned, above every region, less than a page above the highest, free of conflicts, and one page when there is no region |
| Layout.PermsRoundTrip | wraith-rust/src/aslr.rs:140-147 | a printed permission column decodes to its rights, whatever its sharing |
| Injector.PatchBytes | wraith-rust/src/restorer.rs:426-429 | the patch is 0f 05 cc in the low three bytes and the old word in the other five |
| Injector.InjectInto | wraith-rust/src/restorer.rs:409-492 | the injector does what Inject says, step by step |
| Injector.InjectionEnds | wraith-rust/src/restorer.rs:409-492 | an injection ends with the call served, with a stray trap signal that passes for the call and changes nothing, or with an error; which one is decided by the child's fate and its code page |
| Injector.ReturnExact | wraith-rust/src/restorer.rs:481-489 | a result is an error exactly for the last 4095 values, and the error number is the one the kernel meant |
| Injector.InjectTransparent | wraith-rust/src/restorer.rs:393-395 | an injection that reports no unexpected stop, errno included, is the kernel serving the call and nothing else, or nothing at all if a stray trap signal came before it |
| Injector.InjectAllTransparent | wraith-rust/src/restorer.rs:44-45 | any sequence of trapped injections amounts to the calls themselves, less those that a stray trap signal came before |
| Restorer.ProcessRestorer.RestoreOne | wraith-rust/src/restorer.rs:178-226 | one turn of the region loop |
| Restorer.ProcessRestorer.Inner | wraith-rust/src/restorer.rs:174-268 | the region loop, the registers and the dup2 loop |
| Restorer.ProcessRestorer.RestoreProcess | wraith-rust/src/restorer.rs:94-110 | the whole restore, killing the child on error |
| RestorerProofs.PreflightExact | wraith-rust/src/restorer.rs:114-144 | the pre-flight checks pass exactly for x86_64 snapshots on x86_64 hosts with registers, at least one region, and regions that are nonempty, in user space and disjoint; the first thing amiss is named |
| RestorerProofs.OnlyAdmissible | wraith-rust/src/restorer.rs:94-110 | whatever the kernel does, only such a snapshot is restored, and any other is refused before a child exists |
| RestorerProofs.InjectedRegisters | wraith-rust/src/restorer.rs:494-545 | the number and arguments of each injected call in the registers of the calling convention |
| RestorerProofs.RegionExact | wraith-rust/src/restorer.rs:178-226 | a restored region holds its bytes and its protection, but for writing that a stray trap signal left on; it matches its checksum, and nothing else changed |
| RestorerProofs.RegionsExact | wraith-rust/src/restorer.rs:178-226 | disjoint regions in any order are all in place afterwards, each as it was left |
| RestorerProofs.RegionsImage | wraith-rust/src/restorer.rs:178-226 | restoring disjoint regions lays them over memory one after the other, with one or two injections each |
| RestorerProofs.RestoreExact | wraith-rust/src/restorer.rs:94-268 | a successful restore that lost no protection and whose dup2 injections were safe rebuilds memory, protections and registers |
| DupProofs.DupEnds | wraith-rust/src/restorer.rs:409-492 | the six ways a dup2 injection ends, with the state it leaves in each |
| DupProofs.DupsKeepRights | wraith-rust/src/restorer.rs:240-249 | whatever happens, a child that survives the dup2 injections has its mappings and protections |
| DupProofs.DupsHarmless | wraith-rust/src/restorer.rs:240-249 | safe dup2 injections change descriptors only |
| DupProofs.DupServed | wraith-rust/src/restorer.rs:240-249 | a served dup2 makes the snapshot's descriptor another name of the reopened one and touches no other |
| DupProofs.DupsEffect | wraith-rust/src/restorer.rs:240-249 | the state of a child that survives any series of dup2 injections |
| DupProofs.InterruptionLeavesPatch | wraith-rust/src/restorer.rs:240-249 | unless they were safe, an injected call is still in the code at the instruction pointer |
| DupProofs.DupsUnseenIff | wraith-rust/src/restorer.rs:240-249 | dup2 injections leave all but descriptors alone if and only if they were safe or coincide with what was there |
| RestorerProofs.RestoreExactIff | wraith-rust/src/restorer.rs:94-268 | a successful restore is exact if and only if no protection was lost to a stray trap signal and its dup2 injections were safe or coincide, a condition on the snapshot, the stub and the kernel |
| RestorerProofs.LeftExactIff | wraith-rust/src/restorer.rs:94-268 | whatever stray signals came, a successful restore is exact for the regions as left if and only if its dup2 injections were safe or coincide |
| RestorerProofs.LostProtectionStays | wraith-rust/src/restorer.rs:212-223 | a region whose mprotect was never executed is writable in the restored process |
| RestorerProofs.UnsafeEndLeavesPatch | wraith-rust/src/restorer.rs:243-245 | unless the dup2 injections were safe an injected system call stands at the restored instruction pointer |
| RestorerExamples.SignalledDup | wraith-rust/src/restorer.rs:243-245 | a concrete restore that succeeds and is not exact, because of a signal |
| RestorerExamples.CodeAtPageEnd | wraith-rust/src/restorer.rs:409-492 | a concrete restore that succeeds and is not exact, although the kernel never interferes |
| RestorerExamples.LostProtection | wraith-rust/src/restorer.rs:453-458 | a concrete restore that succeeds and leaves an "r-xp" page writable, because of a stray trap signal |
| RestorerExamples.StoppedAtSameCall | wraith-rust/src/restorer.rs:243-245 | a concrete restore that is exact although its dup2 was interrupted |
| RestorerProofs.RestoreSucceedsIff | wraith-rust/src/restorer.rs:94-268 | with a cooperative kernel, stray trap signals at mprotect allowed, a restore succeeds exactly when the snapshot is admissible and all checksums and the FPU size are right |
| RestorerProofs.RestoreEnds | wraith-rust/src/restorer.rs:174-268 | otherwise it fails with the first checksum that does not match, or with the FPU size, or, if the child dies during a dup2, with the detach |
| RestorerProofs.MapFailure | wraith-rust/src/restorer.rs:199-214 | a refused mmap comes back with its error number, a mapping elsewhere with its place, a child that did not stop with a trap with how it stopped |
| RestorerProofs.ProtectFailure | wraith-rust/src/restorer.rs:219-223 | the same for the mprotect |
| Teleporter.Orchestrator.RunCapture | wraith-control/wraith/teleporter.py:204-249 | the capture phase |
| Teleporter.Orchestrator.RunTransfer | wraith-control/wraith/teleporter.py:251-309 | the transfer phase |
| Teleporter.Orchestrator.RunRestore | wraith-control/wraith/teleporter.py:311-357 | the restore phase |
| Teleporter.Orchestrator.TerminateSource | wraith-control/wraith/teleporter.py:359-381 | the commit |
| Teleporter.Orchestrator.Rollback | wraith-control/wraith/teleporter.py:385-427 | resuming the source, any failure being a RollbackError |
| Teleporter.Orchestrator.CleanupSnapshot | wraith-control/wraith/teleporter.py:431-438 | the snapshot file is removed unless the file system refuses |
| Teleporter.Orchestrator.Close | wraith-control/wraith/teleporter.py:159-170 | completion or the exception handler that applies |
| Teleporter.Orchestrator.Migrate | wraith-control/wraith/teleporter.py:126-174 | a run follows the migration function and leaves the snapshot file behind only if it cannot be unlinked |
| TeleporterProofs.EveryRunLegal | wraith-control/wraith/teleporter.py:147-174 | every run is a legal path, ending in a final state exactly when the session opened and no phase let a foreign exception through |
| TeleporterProofs.FailedIffResumeFailed | wraith-control/wraith/teleporter.py:385-427 | FAILED and RollbackError exactly when a phase raised its error and the resume did not exit with 0; the original error otherwise |
| TeleporterProofs.RunEnds | wraith-control/wraith/teleporter.py:126-174 | for every environment the final state of a run and its exception: COMPLETE, ROLLED_BACK and FAILED each exactly under its condition |
| TeleporterProofs.RunActs | wraith-control/wraith/teleporter.py:204-427 | for every environment what a run does outside: each act exactly under its condition, at most once, in order |
| TeleporterProofs.PreflightFailureTouchesNothing | wraith-control/wraith/teleporter.py:162-165 | a blocking preflight failure causes nothing outside |
| TeleporterProofs.SignalOnlyAfterRestore | wraith-control/wraith/teleporter.py:156-157 | signals only after exit status 0, outside verify-only mode, and never with a resume |
| TeleporterProofs.NoProcessLost | wraith-control/wraith/teleporter.py:147-174 | a run that signals the source leaves a copy running |
| TeleporterProofs.NeverLost | wraith-control/wraith/teleporter.py:147-174 | over any series of runs, moving any instances, the number of running instances never falls |
| TeleporterProofs.ChainMoves | wraith-control/wraith/teleporter.py:147-174 | after a chain of committed migrations, each moving the copy of the one before, exactly the newest instance runs |
| TeleporterProofs.VerifyOnlyKeepsSource | wraith-control/wraith/teleporter.py:126-157 | verify-only runs take no instance away |
| RestorerProgram.ExitZeroIffAlive | wraith-rust/src/bin/restorer.rs:59-131 | the restorer exits 0 exactly if it leaves a live restored process, 2 exactly if strict descriptors made it kill one, 1 exactly if nothing was restored |
| Pipeline.CaptureThenRestore | wraith-rust/src/restorer.rs:94-268 | exactly the mappings that were kept come back, with bytes, protections and registers, if and only if the restore's end was exact |
| Pipeline.ReproducesIffRebuilt | wraith-rust/src/capturer.rs:44-92 | for a captured snapshot the restorer's promise is reproduction of the source, and the other way round |
| Pipeline.CapturedRestoresIff | wraith-rust/src/capturer.rs:44-92 | an ordinary process is captured, and with a cooperative kernel and a fit stub restored, if and only if some mapping was kept |
| Pipeline.MigrationPreservesProcess | wraith-go/pkg/transport/client.go:63-140 | captured, sent, received and restored, the process is the one that was captured, if and only if the restore's end was exact |
| Pipeline.CommitMeansReproduced | wraith-control/wraith/teleporter.py:147-160 | if a migration signals the source, whatever part of the session arrived, a live process was restored from all of it, and reproduces it if and only if the restore's end was exact |
| PipelineExample.MigrationHappens | wraith-control/wraith/teleporter.py:126-160 | a migration that meets every condition of the results above, commits, and reproduces the source |
| PipelineExample.CommitCanFallShort | wraith-control/wraith/teleporter.py:126-160 | a migration that meets the same conditions, commits, and does not reproduce the source |

## Left out

- Transmitter.SendBlockWithRetry: deadlines and the kinds of write errors are not modelled; a write succeeds, or fails after some of its bytes.
- Transmitter.SendSnapshot: the reduction is a real number instead of a float64, and nothing is claimed about the snapshot reaching disk, because the sender does not wait for that.
- Layout.PermsRoundTrip: permission strings are sequences of characters where the code looks at bytes; the two agree on the ASCII that the kernel prints.
- Layout.SortIsFaithful: the standard library's stable sort is an insertion sort on sequences; sorting in place is not captured.
- Injector.InjectTransparent: the kernel's side (`Machine.KernelCall`) is limited to fixed private anonymous mappings, mprotect and dup2, with no effect on an error; a mapping placed elsewhere goes to free addresses.
- Injector.InjectInto: ptrace requests fail only when the child is gone or the word is not mapped, a signal arrives between instructions, and system call restarting is left out.
- Restorer.ProcessRestorer.WriteToChild: a write that fails part way leaves memory unchanged in the model; the child is killed in either case.
- Restorer.ProcessRestorer.RestoreProcess: fork_stub is not modelled step by step; the method starts from a stub that has stopped, and a fork that fails is an outcome of `RestorerProgram.RunRestorer`.
- RestorerProofs.RestoreExact: page-multiple sizes, complete data and a stub clear of all regions are preconditions, because the restorer does not check them; capture is proved to give the first two, and the third is stated on the captured mappings.
- RestorerProofs.RestoreExactIff: stubs are mapped below 2^47 and not in the first page, as user memory is.
- Capturer.Capture: the source keeps running after the capture, so nothing is said about it during the transfer; descriptors, metadata and timestamps of the snapshot are not modelled.
- Maps.ParseMaps: the file is given as its lines.
- CapturerProofs.CapturedSound: the mappings listed before the process is stopped are assumed to be its mappings while it is read; a mapping gone by then counts as unreadable.
- Teleporter.Orchestrator.RunRestore: parsing the restored PID from the restorer's output is a parameter; the fallback -1 is one of its values.
- Teleporter.Orchestrator.RunPreflight: the individual checks are one outcome: passed, blocked, or an exception.
- TeleporterProofs.NoProcessLost: a copy left by a restore that timed out is the environment's choice, and "at most one live copy" is claimed only for chains whose runs all commit, because the code does not give it in general.
- Pipeline.CommitMeansReproduced: what arrives is a prefix of the session, so retries after partial writes are not covered, and the restorer finds no file, an empty one, or the receiver's finished one; nothing in the code makes the restorer wait for that file, and a file caught half written is outside the result.
- Teleporter.Orchestrator.Migrate: removing the remote snapshot, timing and logging are not modelled.
- File descriptor restoration beyond the dup2 injections: files are opened in the parent after the fork, so descriptor numbers do not carry into the child.
- Sockets, SSH, subprocess launching, command lines, logging and configuration: plumbing around the modelled code.
- The design sketches in docs/: they differ from the code, which is what is modelled.
