# Verification of conda-ship

conda-ship stamps runtime data onto executables and runs protocols on disk that must survive a crash at any moment.
This project models those parts in Dafny and proves what they promise. `dafny verify dfyconfig.toml` checks it all.

Code that changes things step by step is modelled by classes and methods with the same steps in the same order. Each
file system call is one method that can fail; a crash is a stop between two of them. The protocols are stated twice:
as the set of steps that may ever be taken (`UpdateProtocol`, `BootstrapProtocol`, `Publication`,
`InstallationRecord`), about whose runs the invariants are proved, and as the operations (`Updater`, `BootstrapClient`,
`ArtifactPublisher`, `InstallationStore`), every disk access of which requires that it be such a step. The ghost
history of an object is therefore always a legal run, and every theorem about runs holds of it, at every point where
the process could be killed.

| file | what it models |
|---|---|
| `MetadataJournal.dfy` | the three-file metadata cell: persist with its rename fallback and rollback, read with its repair, invalidate |
| `UpdateProtocol.dfy` | the journal of an executable update against the target, candidate and backup files, on Unix and Windows, with candidates that may vanish; safety over all runs |
| `UpdateConvergence.dfy` | what undisturbed recovery and worker steps do to a disk, and the measure that makes them end |
| `Updater.dfy` | stage, approve, apply, discard, recover and the Windows worker, on the journal and the files |
| `Bytes.dfy`, `RuntimeFooter.dfy` | little-endian numbers, alignment, the stamp footer and the search for it |
| `PeCertificates.dfy`, `PeImage.dfy`, `PeHeader.dfy`, `PeStamp.dfy` | the certificate table, the layout check, the header bytes and the stamp of PE images (Microsoft PE Format, "Section Table (Section Headers)", "Optional Header Windows-Specific Fields", "The Attribute Certificate Table (Image Only)") |
| `PeKept.dfy`, `MachOKept.dfy` | what a stamp leaves as it was: the program in a PE image and in a Mach-O executable |
| `PeExample.dfy` | templates, byte by byte, that the PE writer accepts |
| `MachO.dfy` | what an acceptable Mach-O executable is: header, load commands read from their bytes, rules between them |
| `MachOLayout.dfy`, `MachOCheck.dfy` | the pass over the load commands with its lists, minima and maxima, and the conclusions drawn from them |
| `MachOEdit.dfy`, `MachOStamp.dfy`, `MachOWriter.dfy` | dropping, appending and growing commands; the stamp, and the writer that changes the loaded bytes in place |
| `MachORead.dfy`, `MachOSign.dfy`, `MachORoundTrip.dfy` | reading a file, signing it into the slot that the writer keeps, reading it again |
| `MachOExample.dfy` | executables, byte by byte, that the Mach-O writer accepts |
| `RuntimeAppend.dfy` | appending as a whole: write, read again, and keep the output only if it says what was asked for |
| `BootstrapProtocol.dfy`, `BootstrapClient.dfy` | processes that bootstrap, find and remove a prefix under one lock, with the marker and the metadata |
| `Publication.dfy`, `ArtifactPublisher.dfy` | publication of artifacts by rename, checksum file last, several stems at once |
| `InstallationRecord.dfy`, `InstallationStore.dfy` | who manages the installed executable, and how that record may change |
| `Exclusion.dfy`, `SbomRoots.dfy`, `ArtifactUrl.dfy` | the exclusion worklist, the graph and roots of a software bill of materials, the token check of artifact URLs |
| `Ordering.dfy` | sorting by names, and why a sorted list does not depend on the order before |

PE and Mach-O files are byte sequences: what the check accepts, what the writer leaves and what the reader returns are
all stated of the file's own bytes. A SHA-256 digest stands for the content of a file, and the JSON header of a stamp is
read by a function that is inverse to writing it. Clocks, the network and package contents appear as nondeterministic
outcomes or as parameters.

## Where the code does less than one might expect

Each of these is proved with a concrete witness, and with the exact condition where there is one.

- A persist is atomic if and only if a main file is in place or there is nothing to lose
  (`MetadataJournal.PersistIsAtomicIff`): it removes the temporary file first, which may hold the only committed value.
- The Windows worker can meet a combination that it refuses as invalid, when a candidate is deleted after the worker
  was started (`UpdateProtocol.WorkerCanMeetUnhandledState`). Start-up recovery always has an arm for it.
- An unfinished installation keeps a readable marker throughout a run if and only if the run neither begins to rewrite
  a marker that is only in the temporary file, which is removed first, nor begins a removal while packages or a torn
  temporary file are there (`BootstrapProtocol.MarkerIsKeptIff`). One crash and an interrupted removal
  (`BootstrapProtocol.RemovalCanLoseMarker`), or crashes during rewritings (`BootstrapProtocol.MarkerCanBeLost`), leave
  a prefix without any marker; every runtime then refuses it.
- `initialize_current` and `reconcile_current` read metadata without the lock, and a read can move files. A read that
  finds the main file missing can lead to a half-installed prefix that counts as ready, and no other read can
  (`BootstrapProtocol.UnlockedReadIsHarmlessIff`): what it moves may be a file that has come later. The move does it
  exactly while metadata is being removed and that file can be read (`BootstrapProtocol.UnlockedMoveIsHarmlessIff`; a whole
  run in `BootstrapProtocol.UnlockedReadCanMakeDirtyReady`).
- Such a move can also put a half-written file in the place of recorded metadata
  (`BootstrapProtocol.UnlockedReadCanLoseMetadata`, exact condition in `BootstrapProtocol.MoveKeepsMetadataIff`).
- The same unlocked read lets `reconcile_current` overwrite an external installation by a direct one, although
  `record_installation` documents that external ownership is never reclaimed (`InstallationRecord.ExternalCanBecomeDirect`,
  exact condition in `InstallationRecord.ReconcilingEvolvesIff`). When metadata is read under the lock it cannot happen.
- Publication is serialized by stem, but stems may contain dots, so that `demo.exe` for Linux and `demo` for Windows
  write the same file. The checksum file of one can then be wrong; the exact condition is `Publication.TruthIffApart`.
- A Mach-O template whose `__LINKEDIT` is empty may give it an address inside another segment. The check accepts it,
  and not its stamped form (`MachOExample.EmptyLinkeditCanCollide`, exact condition in `MachOStamp.StampedIsAcceptedIff`).
- The writer makes room for a signature command in front of the sections, but not in front of the end of `__TEXT`. A
  stamped file can therefore be impossible to sign (`MachOExample.TextCanBlockTheSignature`, exact condition in
  `MachOSign.SignedIsAcceptedIff`). A template that was signed before cannot meet this (`MachORoundTrip.SigningAgainFitsIff`).
- The headers of a PE image may overlap the pointer to them. Writing the section count or the data size then can change
  the pointer, and the file no longer parses as the stamped image (`PeExample.OverlappingHeadersAreLost`). The exact
  condition on the headers of the template is `PeHeader.SparesPointer` (`PeStamp.StampedParsesIff`). `append_to_binary`
  reads its output again and keeps it only if it says what was asked for (`RuntimeAppend.AppendToPe`, and
  `RuntimeAppend.AppendToMachO` for Mach-O).

## Model

| member | source | states |
|---|---|---|
| MetadataJournal.PersistIsAtomicIff | src/config.rs:226-301 | stopping a persist anywhere leaves the old or the new committed value if and only if a main file was in place or no older value could be lost |
| MetadataJournal.MetadataStore.Persist | src/config.rs:226-301 | success commits the value and leaves no temporary or backup file; every state on the way, through the rename fallback and its rollback, is one of the states that the atomicity theorem quantifies over. With a main file in place one refused rename does not make it fail, and the main file is missing afterwards only if the rollback was refused too |
| MetadataJournal.MetadataStore.Read | src/config.rs:308-348 | returns exactly the committed value, moves it to the main file, and changes the committed value in no intermediate state |
| MetadataJournal.MetadataStore.ReadTwice | src/config.rs:308-348 | two reads give the same answer unless a call fails |
| MetadataJournal.MetadataStore.Invalidate | src/config.rs:177-181 | removes main, temporary and backup file in this order; success leaves none |
| UpdateProtocol.InvKept | src/executable_update.rs:670-840 | every single rename, removal or journal write keeps the invariant that relates phase, target, candidate and backup |
| UpdateProtocol.RunsAreSafe | src/executable_update.rs:220-283 | the invariant holds at every moment of every run of stage, approve, apply, recover, discard and worker steps with crashes and vanishing candidates |
| UpdateProtocol.StablePathIsOldOrNew | src/executable_update.rs:670-840 | the stable path always exists and holds the complete file of the recorded release or of the pending one |
| UpdateProtocol.IdleRecordDescribesStableFile | src/executable_update.rs:1223-1251 | with nothing pending the record verifies the stable file and no backup for it is left |
| UpdateProtocol.PhasesAfterStagedAreApproved | src/executable_update.rs:141-171 | a phase past Staged implies that this same release was approved earlier in the run and has been pending since |
| UpdateProtocol.ApprovalPrecedesInstallation | src/executable_update.rs:141-203 | whenever the stable file changes, the new file is that of the pending release, which had been approved before, and the old one that of the recorded release |
| UpdateProtocol.UnapprovedIsKeptOrDiscarded | src/executable_update.rs:236-281 | a step on an unapproved update keeps, approves or discards it and leaves record and stable file alone |
| UpdateProtocol.RecoveryIsTotal | src/executable_update.rs:670-840 | in every run every file that is present verifies and recovery has an arm for the state, so that the invalid-state error is unreachable there |
| UpdateProtocol.WorkerIsTotalIff | src/executable_update.rs:1079-1130 | the worker has an arm exactly when its own file is still the backup, the phase is Replacing or Cleanup, and the candidate is there or already installed |
| UpdateProtocol.WorkerCanMeetUnhandledState | src/executable_update.rs:1079-1130 | a legal run that ends where the worker has no arm |
| UpdateConvergence.RoundsProgress | src/executable_update.rs:753-840 | an undisturbed recovery with its worker strictly decreases the distance of a pending update and keeps the invariant |
| UpdateConvergence.RecoveryConverges | src/executable_update.rs:1152-1236 | from every disk that satisfies the invariant finitely many rounds end the update; record, version and build then describe the stable file and no backup for it is left |
| UpdateConvergence.EveryRunConverges | src/executable_update.rs:92-99 | the same from wherever a run stops, so that staging again is not refused for a left-over backup |
| Updater.Installation.Interfere | src/executable_update.rs:1203-1221 | a candidate may be deleted from outside at any time, and nothing else may |
| Updater.Installation.StageFile | src/executable_update.rs:1253-1307 | the copy appears under its name complete or not at all, and an existing file is kept |
| Updater.Installation.StageCandidate | src/executable_update.rs:59-138 | success records exactly the new release as unapproved, after the candidate file of that release had been in place and verified with the content of the source; it is still there unless someone deletes it, and every other file is as it was. Undisturbed it succeeds if and only if nothing is pending and the source verifies and differs, and leaves no trace otherwise; it is never refused for a left-over backup |
| Updater.Installation.MarkPendingReady | src/executable_update.rs:141-171 | success leaves the pending release approved; undisturbed it succeeds if and only if nothing is pending, the release is approved already, or it is staged and its candidate is there |
| Updater.Installation.RecoverPending | src/executable_update.rs:220-283 | undisturbed it leaves what `Recovered` says and reports what became of the update, but it leaves an unapproved candidate to the holder of the coordination lock exactly when there is one and discarding was not asked for |
| Updater.Installation.ApplyPending | src/executable_update.rs:174-203 | installs or recovers an approved update and refuses an unapproved one |
| Updater.Installation.ApplyOrRecover | src/executable_update.rs:670-720 | the Unix arms of recovery, each ending as `Recovered` says when undisturbed |
| Updater.Installation.ReplaceCandidate | src/executable_update.rs:723-750 | one rename installs the candidate and the record follows it |
| Updater.Installation.RecoverOrSchedule | src/executable_update.rs:753-840 | the Windows arms of recovery, each ending as `Recovered` says when undisturbed |
| Updater.Installation.StageWorkerBackup | src/executable_update.rs:867-892 | the backup is a complete copy of the recorded release before the worker starts |
| Updater.Installation.FinishCleanup | src/executable_update.rs:1152-1200 | removes the backup and commits the new release, ending as `Recovered` says when undisturbed |
| Updater.Installation.AbandonMissingCandidate | src/executable_update.rs:1203-1221 | gives up an update without candidate: the record is cleared once no backup is left |
| Updater.Installation.WorkerAttempt | src/executable_update.rs:1079-1130 | one attempt of the worker, ending as `Worked` says when undisturbed; while it leaves the stable file alone in the arm that installs, the answer is a retry unless the record cannot be read |
| Updater.Installation.RunWorker | src/executable_update.rs:1055-1070 | repeats attempts; other processes may stage, approve, recover and apply while the lock is free in between. The result is that of the last attempt on the state that it found: undisturbed, it completes exactly when the worker is the backup and has an arm, ending as `Worked` says, and there is only one. It gives up only after a failed rename in every attempt |
| Bytes.CheckedAlignUp | src/runtime_data.rs:2100-2108 | the aligned value, or none exactly when it does not fit in 64 bits |
| Bytes.AlignUpIsLeast | src/runtime_data.rs:2100-2108 | the result is the least multiple that is not below the value |
| RuntimeFooter.DecodeEncode | src/runtime_data.rs:2478-2518 | decoding an encoded footer gives it back |
| RuntimeFooter.EncodeDecode | src/runtime_data.rs:2478-2518 | encoding a decoded footer gives back its bytes |
| RuntimeFooter.ReadWithSearchSpec | src/runtime_data.rs:2353-2393 | the scan returns the payload at the nearest window that ends in the magic, and checks the padding behind it |
| RuntimeFooter.IsZeroRange | src/runtime_data.rs:2333-2351 | reading in blocks decides whether a whole range is zero |
| RuntimeFooter.SearchIsDetermined | src/runtime_data.rs:2353-2423 | what the search may return is unique |
| RuntimeFooter.PaddingHidesNoMagic | src/runtime_data.rs:2353-2423 | no window that ends in zero padding matches |
| RuntimeFooter.StampIsFound | src/runtime_data.rs:2353-2423 | with padding below the alignment the reader returns exactly the header and bundle range that were written, whatever stands around them |
| RuntimeFooter.SearchReadsIff | src/runtime_data.rs:2353-2466 | data is returned exactly when, at the nearest magic with only zeros behind it, a footer ends whose header digest, lengths and bundle digest are those of the data, and whose header parses, is within the limit and starts at the minimum offset or behind; nothing is returned exactly when there is no magic |
| RuntimeFooter.AlteredHeaderIsRefused | src/runtime_data.rs:2426-2466 | a stamp whose header was replaced by one with another digest reads as an error, wherever it stands |
| RuntimeFooter.SecondStampWins | src/runtime_data.rs:314-450 | on a file of no known format a second append makes the reader return the second stamp |
| PeCertificates.ValidateTable | src/runtime_data.rs:2274-2310 | accepts a table if and only if at most 1024 entries of at least 8 bytes, rounded up to 8, tile it exactly |
| PeCertificates.ChainsAgree | src/runtime_data.rs:2274-2310 | where entries start is determined by the bytes |
| PeImage.PrefixGrowsIff | src/runtime_data.rs:788-1077 | given correct sections, the tests that the loop makes on the next one decide exactly whether the longer prefix is correct |
| PeImage.CheckSection | src/runtime_data.rs:788-1077 | one turn of the section loop passes exactly when the declared rules hold, and updates its variables accordingly |
| PeImage.RangesDoNotOverlap | src/runtime_data.rs:788-1077 | after the loop its two overlap tests cannot fail |
| PeImage.PartsAreApart | src/runtime_data.rs:788-1077 | in an accepted image the section table is inside the headers; headers, sections and certificates do not overlap in the file, nor the sections in memory, where they lie behind the headers and inside the image |
| PeImage.ReadLayout | src/runtime_data.rs:788-1077 | returns the layout if and only if headers, sections and certificate range obey the rules |
| PeStamp.ContentIsAligned | src/runtime_data.rs:1263-1274 | the content starts behind the anchor, ends 8-aligned within 32 bits, and leaves a gap of less than 8 bytes |
| PeStamp.PlanFacts | src/runtime_data.rs:1020-1055 | a plan puts the anchor behind everything, aligned in file and memory, with room in the section table |
| PeHeader.EditedParsesIff | src/runtime_data.rs:1079-1261 | the changes of the section count, the sizes, the certificate entry and the new section header, parsed again, give exactly the changed image if and only if they leave the pointer to the headers alone |
| PeHeader.SignedFileParses | src/runtime_data.rs:788-1077 | a signature that sets the checksum and the certificate entry and appends a table never reaches the pointer to the headers; the signed bytes parse into the image that names the table |
| PeStamp.StampedImageIsAccepted | src/runtime_data.rs:1079-1261 | the check that accepted the template accepts the stamped image, at either alignment; its one anchor is its last section |
| PeStamp.StampedParsesIff | src/runtime_data.rs:1079-1261 | the bytes that the writer leaves parse into the stamped image exactly when the headers of the template spare the pointer to them: they do not start at 54, nothing is carried into the part of the data size that lies in the pointer, and the file alignment has nothing in it |
| PeStamp.StampedPointerStaysIff | src/runtime_data.rs:1079-1261 | the pointer is the same in the written bytes under exactly that condition on the template's headers |
| PeStamp.StampRoundTrip | src/runtime_data.rs:2193-2272 | reading a stamped image returns exactly the header and the bundle range written, and that range holds the bundle |
| PeHeader.AddedSectionSparesIff | src/runtime_data.rs:1079-1261 | raising the section count and adding one file alignment to the data size keeps the pointer exactly under that condition |
| PeStamp.MovedStampIsLost | src/runtime_data.rs:2130-2272 | when the pointer moves on by one, the written file has no headers and is refused |
| PeStamp.FileRoundTrip | src/runtime_data.rs:2130-2272 | the same from the file, for headers that spare the pointer: its bytes are parsed, accepted and searched, and give back what was written |
| PeStamp.SignedIsAccepted | src/runtime_data.rs:788-1077 | appending a certificate table at the payload end keeps the image accepted |
| PeStamp.SignedStampRoundTrip | src/runtime_data.rs:2193-2272 | after signing with any well-formed table the reader returns the same, whatever the checksum and the certificate bytes |
| PeStamp.SignedFileRoundTrip | src/runtime_data.rs:2130-2272 | under the same condition the bytes of the signed file read back too |
| PeStamp.StampedImageIsRefused | src/runtime_data.rs:1079-1261 | a stamped image is not stamped again |
| PeStamp.LegacyMagicExists | src/runtime_data.rs:2312-2331 | finds a footer magic outside an anchor exactly if there is one in the window |
| PeStamp.ReadPe | src/runtime_data.rs:2193-2272 | refuses what the layout check refuses, reads the anchored stamp, and rejects a footer without an anchor |
| PeStamp.ReadsPeIff | src/runtime_data.rs:2193-2272 | data is returned exactly when the image is accepted and an anchored payload with the digest that its footer records ends, aligned and padded with zeros, where the content ends; without an anchor, exactly when a stamp ends an unsigned file behind its sections |
| PeStamp.OtherPeHeaderIsRefused | src/runtime_data.rs:2426-2466 | an anchored payload whose header has another digest than its footer reads as an error |
| PeStamp.OutputFile.WriteRuntimeData | src/runtime_data.rs:1079-1261 | succeeds if and only if the file parses and every check passes, leaves the bytes of the stamped file with the program in it, and touches nothing otherwise |
| PeStamp.StampKeepsTemplate | src/runtime_data.rs:1239-1261 | in the stamped file every byte of the template outside the section count, two sizes, the checksum, the certificate entry and the new section header is where it was, so that each section holds the same code or data; those six places name the anchor and nothing else |
| PeExample.ExampleIsPlanned | src/runtime_data.rs:1079-1261 | templates, given by their bytes, that the writer stamps, aligned below the page size and at it |
| PeExample.OverlappingHeadersAreLost | src/runtime_data.rs:1079-1261 | of these, the stamped bytes parse as the stamped image exactly when the headers do not overlap the pointer to them |
| MachO.ParseConcat | src/runtime_data.rs:1399-1424 | a table of well-formed commands parses into these commands |
| MachO.ParseInvertsBytes | src/runtime_data.rs:1336-1396 | a file whose header counts its commands parses into header, commands and rest |
| MachO.ParsedFacts | src/runtime_data.rs:1336-1396 | parsing loses no byte, and the header counts what was parsed |
| MachOLayout.CheckSegment | src/runtime_data.rs:1428-1592 | one turn of the loop on a segment passes exactly when its fields and sections obey the rules and nothing repeats that may not, and updates the variables of the loop accordingly |
| MachOLayout.CheckCommand | src/runtime_data.rs:1421-1855 | one turn of the loop, for every kind of command |
| MachOCheck.ScanCommands | src/runtime_data.rs:1421-1855 | the loop passes exactly when every command passes in its place; its variables then describe all commands |
| MachOCheck.NeighboursDecide | src/runtime_data.rs:1886-1899 | comparing neighbours in the sorted list finds an overlap exactly if any two ranges overlap |
| MachOCheck.FirstSectionDecides | src/runtime_data.rs:1922-1924 | the lowest section start is behind a bound exactly if all are |
| MachOCheck.StructuredIff | src/runtime_data.rs:1421-1924 | loop and conclusions accept exactly the tables whose commands are correct, apart, complete and placed as declared pairwise |
| MachOCheck.ReadLayout | src/runtime_data.rs:1336-1941 | returns a layout if and only if the load commands obey the declared rules; the layout describes them |
| MachOCheck.ValidateFinalLayout | src/runtime_data.rs:1943-1991 | the maxima decide exactly whether `__LINKEDIT` is last in file and memory, ends the file, and covers references and signature in the right order |
| MachOCheck.CheckImage | src/runtime_data.rs:1336-1991 | both checks accept exactly the executables that the rules describe |
| MachOEdit.DropKeepsStructure | src/runtime_data.rs:2016-2045 | without its signature command a table is still structured |
| MachOEdit.GrowKeepsStructureIff | src/runtime_data.rs:2076-2087 | with a larger `__LINKEDIT` a table stays structured exactly when the addresses fit |
| MachOWriter.FreeSlotIff | src/runtime_data.rs:2046-2064 | comparing the lowest section start and the bytes behind the table decides exactly whether there is room for a signature command |
| MachOWriter.RemoveSignature | src/runtime_data.rs:2024-2025 | moving the rest of the loaded bytes up and clearing the end, in place |
| MachOWriter.RemovalKeepsCommands | src/runtime_data.rs:2016-2025 | the other commands stay, unchanged and in order, in front of a zeroed slot |
| MachOWriter.AdjustedOffsetNamesCommand | src/runtime_data.rs:2026-2028 | the offset of `__LINKEDIT`, adjusted by the removed size, still names the same command |
| MachOWriter.StampPrefix | src/runtime_data.rs:2016-2089 | the in-place changes of the loaded bytes produce exactly the stamped header and table |
| MachOWriter.WrittenIsStamped | src/runtime_data.rs:2089-2098 | the writes, one after the other, leave exactly the stamped file |
| MachOWriter.OutputFile.WriteRuntimeData | src/runtime_data.rs:1993-2098 | succeeds if and only if the file parses, is accepted and has a plan, leaves the bytes of the stamped file, and touches nothing otherwise |
| MachOKept.StampKeepsTemplate | src/runtime_data.rs:2016-2098 | in the stamped file everything behind the load commands up to the signature is where it was, and the header and the load commands are the same but for the dropped signature, two counts and the two sizes of `__LINKEDIT` |
| MachOStamp.NonEmptyLinkeditIsLast | src/runtime_data.rs:1943-1991 | in an accepted template a `__LINKEDIT` that is not empty lies above every other segment |
| MachOStamp.StampedFinalOk | src/runtime_data.rs:1943-1991 | the grown `__LINKEDIT` ends the file, is last in file and memory and covers all referenced data |
| MachOStamp.StampedIsAcceptedIff | src/runtime_data.rs:1943-2098 | the stamped file is accepted again exactly when the growth fits addresses and sections |
| MachORead.StampedParses | src/runtime_data.rs:1993-2098 | the bytes of the stamped file, accepted or not, parse into the template's header and commands without the signature, with the counts to match |
| MachORead.StampedHasSlot | src/runtime_data.rs:2016-2064 | in both branches 16 zero bytes follow the table, and no signature is left |
| MachORead.ReadMachO | src/runtime_data.rs:2130-2191 | reads a file from its own bytes: header counts, commands, both checks, then the search range that `__LINKEDIT` and the signature give |
| MachORead.ReadsMachOIff | src/runtime_data.rs:2164-2191 | data is returned exactly when the file parses, is accepted, and a whole stamp with the recorded digest ends inside `__LINKEDIT` at the end of the file, or up to 15 zero bytes before its signature |
| MachORead.OtherMachOHeaderIsRefused | src/runtime_data.rs:2426-2466 | a stamp in that place whose header has another digest than its footer reads as an error |
| MachORead.StampReadsBackIff | src/runtime_data.rs:2164-2191 | the stamped file reads as exactly what was written if and only if the growth fits, and is refused otherwise |
| MachOSign.SignedIsAcceptedIff | src/runtime_data.rs:1943-1991 | a signature in the slot, with its data appended at the next aligned offset and `__LINKEDIT` grown over it, is accepted exactly when the command has room and the addresses fit |
| MachORoundTrip.SignedStampReadsBackIff | src/runtime_data.rs:2164-2191 | the file, stamped and then signed, reads as exactly what was written if and only if the signing fits, and is refused otherwise |
| MachORoundTrip.SigningAgainFitsIff | src/runtime_data.rs:2015-2047 | a template that was signed has the room: signing its stamped form fits exactly when the addresses do not overflow |
| MachOExample.ExampleIsAccepted | src/runtime_data.rs:1336-1991 | executables, given by their bytes, with entry point, dynamic linker, platform, `__TEXT`, code and `__LINKEDIT`, that are accepted |
| MachOExample.EmptyLinkeditCanCollide | src/runtime_data.rs:1943-2098 | the writer accepts them; the stamped form is accepted exactly when the empty `__LINKEDIT` lies above the other segments |
| MachOExample.TextCanBlockTheSignature | src/runtime_data.rs:2046-2064 | once stamped they can be signed exactly when `__TEXT` reaches behind the slot for the signature command |
| RuntimeAppend.AppendToMachO | src/runtime_data.rs:314-450 | succeeds if and only if the header and the payload are within the limits and the template has a plan whose growth fits; the output is the stamped template, still holds the program, and reads as what was asked for |
| RuntimeAppend.AppendToPe | src/runtime_data.rs:314-450 | succeeds if and only if the payload is within the limits, the template has a plan, and its headers spare the pointer to them, or start at 27 to 30 so that the pointer moves to other headers through which the file reads as asked for; a template whose pointer moves by one gets no output. The output still holds the program of the template |
| BootstrapProtocol.InvKept | src/bootstrap_state.rs:121-194 | every step keeps: an unfinished installation has no metadata in any of the three files, and packages change only under a marker |
| BootstrapProtocol.RunsAreSafe | src/bootstrap_lock.rs:16-50 | the invariant over all runs of any number of processes with crashes, under one lock |
| BootstrapProtocol.DirtyIsNeverReady | src/commands.rs:130-217 | a prefix that an unfinished installation changed is never classified as ready, for any runtime and any delegate; the disposition is given exactly |
| BootstrapProtocol.ReadyIff | src/commands.rs:130-217 | exactly when a prefix is ready, is installed from the beginning, or is installed again; in particular no prefix is ready without the healthy delegate that is asked for |
| BootstrapProtocol.MarkerStandsDuringInstallation | src/commands.rs:288-360 | while packages change there is a readable marker and no metadata |
| BootstrapProtocol.MarkerStaysReadableIff | src/bootstrap_state.rs:147-187 | within one rewriting: a readable marker survives every intermediate state if and only if it is the marker file |
| BootstrapProtocol.MarkerIsKeptIff | src/bootstrap_state.rs:121-194 | over all runs under the lock: an unfinished installation has a readable marker at every moment, and after any one file that a removal then deletes, exactly if the run takes none of the two guarded steps |
| BootstrapProtocol.RemovalCanLoseMarker | src/fleet.rs:213-243 | a legal run with one interrupted installation and one interrupted removal whose unfinished prefix has no marker |
| BootstrapProtocol.MarkerCanBeLost | src/bootstrap_state.rs:147-187 | a legal run whose unfinished prefix has no marker and is refused by everyone |
| BootstrapProtocol.UnlockedReadIsHarmlessIff | src/config.rs:308-348 | over all continuations, with every look, move and removal of the read a step of its own: a read that begins without the lock can end in an unfinished installation that counts as ready for someone exactly when it finds the main file missing |
| BootstrapProtocol.BegunReadIsHarmlessIff | src/config.rs:308-348 | a read that has begun can do so at every moment until it has done its move or found nothing to move, and not afterwards |
| BootstrapProtocol.UnlockedMoveIsHarmlessIff | src/config.rs:329-348 | its move as the next step can do so exactly when metadata is being removed and the file that has that name then can be read |
| BootstrapProtocol.MoveKeepsMetadataIff | src/config.rs:329-348 | a move without the lock keeps the recorded metadata exactly when the file says what the current one says |
| BootstrapProtocol.UnlockedReadCanLoseMetadata | src/config.rs:308-348 | a legal run in which a slow read moves a half-written file over the metadata of a ready prefix, which every runtime then refuses |
| BootstrapProtocol.UnlockedReadCanMakeDirtyReady | src/runtime_update.rs:420-450 | a legal run with one read, begun on a fresh prefix, whose half-installed prefix is ready |
| BootstrapClient.ManagedPrefix.WriteInstalling | src/bootstrap_state.rs:147-187 | replaces the marker; failures leave one of the listed intermediate states |
| BootstrapClient.ManagedPrefix.InvalidateMetadata | src/config.rs:177-181 | after success no metadata file is left |
| BootstrapClient.ManagedPrefix.FinishBootstrap | src/commands.rs:288-360 | after validation, metadata and removal of the marker the prefix is complete |
| BootstrapClient.ManagedPrefix.Dispose | src/commands.rs:130-217 | the classification, with the removal of a left-over marker, equals the specified disposition and changes nothing else |
| BootstrapClient.ManagedPrefix.EnsureBootstrapped | src/commands.rs:99-124 | ends with a complete prefix, undisturbed exactly when the disposition allows it; a prefix that was not ready has then had its packages installed and its delegate checked, and one that was ready is left alone |
| BootstrapClient.ManagedPrefix.FleetInstall | src/fleet.rs:38-151 | the same for Fleet; success with force has installed packages and checked the delegate in every case, ready prefixes included |
| BootstrapClient.ManagedPrefix.FleetGet | src/fleet.rs:194-208 | finds a runtime only where its metadata is and the prefix is finished; changes nothing |
| BootstrapClient.ManagedPrefix.FleetRemove | src/fleet.rs:213-243 | removes exactly the prefixes that the runtime owns |
| Publication.NamesAreDistinct | src/bin/cs/artifact.rs:1088-1112 | the files of one stem have different names |
| Publication.StemsMeetIff | src/bin/cs/artifact.rs:1550-1564 | different stems share a file name if and only if the extension-less binary of one is named like a file of the other |
| Publication.InvKept | src/bin/cs/artifact.rs:948-971 | every rename of any publication keeps what finished and running publications have brought about |
| Publication.ChecksumFileTellsTruth | src/bin/cs/artifact.rs:948-1035 | in every run whose stems share no file name, whenever a checksum file exists it names the files of one build with the digests of the files that are there, and a bundle is there only if named |
| Publication.MeetingStemsCanLie | src/bin/cs/artifact.rs:929-946 | stems that share a name can make a checksum file wrong |
| Publication.TruthIffApart | src/bin/cs/artifact.rs:929-946 | all runs that publish two stems keep the checksum files true exactly when the stems share no name |
| ArtifactPublisher.WriteArtifactMetadata | src/bin/cs/artifact.rs:1172-1212 | the description lists the payload, and the manifest lists every file but itself with its digest, sorted by path |
| ArtifactPublisher.ManifestIsDetermined | src/bin/cs/artifact.rs:1207-1212 | there is only one sorted manifest of the same files |
| ArtifactPublisher.OutputDirectory.PublishStagedArtifactSet | src/bin/cs/artifact.rs:948-971 | among stems that share no file name, success leaves every staged file published and no bundle that the layout does not have, and a checksum file that is there tells the truth, after failure too |
| ArtifactPublisher.OutputDirectory.RetireFile | src/bin/cs/artifact.rs:973-1035 | success removes exactly the old checksum file or bundle from the directory as other publishers have left it; failure removes nothing |
| ArtifactPublisher.OutputDirectory.PublishFile | src/bin/cs/artifact.rs:1072-1086 | success puts exactly the staged file under its name into the directory as other publishers have left it; failure changes nothing |
| InstallationRecord.RecordingEvolves | src/executable_update.rs:402-568 | recording an installation never reclaims an external one, keeps recorded names and a labelled external installation, and labels only with an executable |
| InstallationRecord.RecordingDescribes | src/executable_update.rs:402-568 | what is recorded names the executable that runs, with its digest, stamp, version and build, and its instruction; nothing is recorded while an update is pending |
| InstallationRecord.DirectStaysAsItIs | src/executable_update.rs:402-568 | a direct claim on a direct record changes its label at most |
| InstallationRecord.ReconcilingEvolvesIff | src/executable_update.rs:288-394 | reconciling on behalf of metadata seen earlier keeps ownership, names and labels exactly if the request still matches ownership and label |
| InstallationRecord.ReconcilesIff | src/executable_update.rs:288-394 | succeeds exactly when the digest is that of the file, the file carries the stamp, no recorded name changes, and a record that is labelled and direct, or has an update staged or to be cleaned up, already describes the executable; any other pending update is refused |
| InstallationRecord.ReconcilingDescribes | src/executable_update.rs:288-394 | what is reconciled names the executable with its digest, stamp, version and build; pending updates and labelled direct installations are left as they are |
| InstallationRecord.FreshRequestIsValid | src/runtime_update.rs:444-498 | a request made of current metadata always does |
| InstallationRecord.RequestKeeps | src/runtime_update.rs:444-498 | a labelled installation is reconciled as it is; any other keeps ownership and instruction or gets those of the stamp, and is named by the resolved file when direct and by the path it was started with when external |
| InstallationRecord.TimelyRunsEvolve | src/runtime_update.rs:420-498 | over whole runs in which no request was overtaken, whatever was recorded once constrains what is recorded now |
| InstallationRecord.LabelsHaveExecutables | src/executable_update.rs:402-568 | in every run a recorded label comes with an executable path |
| InstallationRecord.SerialRunsAreTimely | src/runtime_update.rs:444-498 | reading under the lock would make every run timely |
| InstallationRecord.ExternalCanBecomeDirect | src/runtime_update.rs:444-498 | a legal run in which external ownership and its label are lost |
| InstallationStore.InstallationMetadata.RecordInstallation | src/executable_update.rs:402-568 | succeeds exactly when the claim is admissible, records it, and changes nothing when it refuses |
| InstallationStore.InstallationMetadata.ReconcileCurrentExecutable | src/executable_update.rs:288-394 | succeeds exactly when the rules allow it; keeps the evolution while the request is valid |
| InstallationStore.InstallationMetadata.ReconcileCurrent | src/runtime_update.rs:444-498 | with others reading, reconciling, recording and updating between the read and the lock: ownership, names and labels are kept, and the run stays timely, exactly as far as the request is still valid when the lock is taken; without faults it succeeds exactly when the request is granted on the metadata that it meets there |
| InstallationStore.InstallationMetadata.InitializeCurrent | src/runtime_update.rs:420-442 | does nothing while an update is pending or the record is up to date; otherwise reconciles with the same guarantee, and after success the record names the running release unless an update is pending; without faults it fails only if the request is not granted |
| Exclusion.RemovedIsLeastClosed | src/bin/cs/project.rs:540-605 | the removed set is closed under both reasons for a removal and is the least such set |
| Exclusion.RemovedIsMonotone | src/bin/cs/project.rs:556-605 | excluding more removes more |
| Exclusion.KeptLosesOnlyExcluded | src/bin/cs/project.rs:540-605 | a kept package loses a dependency only if that was excluded by name |
| Exclusion.IndexNames | src/bin/cs/project.rs:546-555 | a name stands for the last package that carries it |
| Exclusion.ReverseDependencies | src/bin/cs/project.rs:557-566 | the reverse lists hold exactly the dependents |
| Exclusion.FindRemoved | src/bin/cs/project.rs:568-592 | the worklist ends with exactly the least closed set, so that the pop order does not matter |
| Exclusion.FilterExcluded | src/bin/cs/project.rs:540-605 | keeps the other packages in order and reports the removed names, sorted; fails exactly if a record is missing |
| Exclusion.RemovedInSteps | src/bin/cs/project.rs:556-605 | removing by one list and then by another, with dependents recomputed, removes what one step removes |
| Exclusion.FilteringComposes | src/bin/cs/project.rs:540-605 | filtering twice equals filtering once by both lists, for all inputs, names distinct or not |
| SbomRoots.EdgesOf | src/bin/cs/sbom.rs:206-236 | the edges of a component are exactly the references its readable dependencies name, sorted and each once; gaps are counted |
| SbomRoots.BuildGraph | src/bin/cs/sbom.rs:196-245 | the graph has the edges, unknown and incomplete references of all components |
| SbomRoots.AddReachable | src/bin/cs/sbom.rs:262-273 | adds exactly what can be reached by a path from the seeds, and terminates on every graph |
| SbomRoots.SelectRoots | src/bin/cs/sbom.rs:246-281 | the roots are what `Chosen` says, in its order: every component is reachable from them, and every added root was unreachable from those before it |
| SbomRoots.AllAreChosenIf | src/bin/cs/sbom.rs:246-257 | when something depends on every component all references become roots |
| SbomRoots.InitialRootsAreNeeded | src/bin/cs/sbom.rs:246-260 | every list of references that reaches a component nothing depends on contains it |
| SbomRoots.RootDependencies | src/bin/cs/sbom.rs:190-287 | components sorted by reference, their graph, and the sorted roots: the roots reach every component and contain every one that nothing depends on |
| SbomRoots.GraphIsDetermined | src/bin/cs/sbom.rs:200-245 | components have one graph |
| SbomRoots.ComponentsAreDetermined | src/bin/cs/sbom.rs:190-194 | the order in which packages are given does not change the components |
| Ordering.SortedIsUnique | src/bin/cs/sbom.rs:194 | a list has one sorted form if different elements have different keys |
| Ordering.LeqIff | src/bin/cs/sbom.rs:194 | names are ordered at the first character in which they differ, and a name comes after its prefixes |
| Ordering.DedupSorted | src/bin/cs/sbom.rs:232-233 | removing repeated neighbours from a sorted list leaves every name once, still sorted |
| ArtifactUrl.ChangesIff | src/http.rs:36-40 | decoding changes a path exactly when it contains an escape |
| ArtifactUrl.DecodesEncoding | src/http.rs:36-40 | decoding any percent encoding of a text, with digits in either case and any bytes left as they are but the percent sign, gives the text |
| ArtifactUrl.EncodedTokenIsRefused | src/http.rs:26-42 | a text that is refused is refused in every percent encoding |
| ArtifactUrl.SecretIsRefused | src/http.rs:36-40 | `t%2Fsecret` shows no token and is refused |
| ArtifactUrl.DecodingSettles | src/http.rs:36-40 | half as many rounds as there are bytes decode a path completely |
| ArtifactUrl.SegmentsShowTokens | src/http.rs:28-35 | the segment loop finds a token exactly if the bytes contain a segment `t` followed by a segment that is not empty |
| ArtifactUrl.FindToken | src/http.rs:26-42 | the loop terminates and finds a token exactly if some round of decoding shows one |
| ArtifactUrl.ValidateArtifactUrl | src/http.rs:9-43 | accepts exactly the texts that parse without credentials, query or fragment and never show a token |
| ArtifactUrl.AcceptanceSurvivesDecoding | src/http.rs:26-42 | an accepted path stays accepted however often it is decoded |
| ArtifactUrl.FewRoundsDecide | src/http.rs:26-42 | a bounded number of rounds decides acceptance |

## Left out

- Package download, caching, solving, link and post-link steps, TLS and authentication: installation is a step that may stop anywhere.
- Parsing of TOML, YAML, JSON and command lines; validation of display, install and runtime names beyond equality of one identity string.
- Symbolic links and entries that are not regular files: the source answers them with an error before it changes anything.
- SHA-256, zstd, tar; 32-bit Mach-O files; what the `object` crate tests beyond the fields that are read here.
- Mach-O: the offset of a section is its 32-bit field, where the crate can continue it past 4 GiB; a `u64` sum is tested by its bound instead of by a checked addition; of several errors the model reports that there is one.
- Comparing platform and machine with the prepared header, the reader capability record of a template, detection of the file format, copying a template to its output and moving the output into its place, and I/O faults inside the stamp writers, which work on a copy.
- Spawning the Windows worker, its environment and the wait for processes: the worker is a process that may take steps or stop.
- The update protocol starts from a directly managed, initialized record; ownership and labels are the subject of `InstallationRecord`, where an update only changes version, build, digest and what is pending.
- Power loss: a completed system call is durable.
- BootstrapProtocol.DirtyIsNeverReady: does not speak of a prefix that Fleet removal has left half deleted; removal takes files away in any order and the model only counts installations as changes.
- BootstrapProtocol.RunsAreSafe: takes a persist or a read under the lock as one step, which ends in any of its intermediate states or the last; reads without the lock step between these, and not inside one.
- BootstrapClient.ManagedPrefix.FinishBootstrap: like the other operations on a prefix, it is stated for the holder of the lock alone; reads without the lock between its calls are the subject of `BootstrapProtocol`.
- Several metadata files in one prefix: each runtime identity has its own in the source, and here there is one.
- Publication.ChecksumFileTellsTruth: does not model file systems that ignore case.
- Exclusion.FilterExcluded: does not model how a dependency is parsed into its package name.
- Ordering.SortedIsUnique: compares names by characters, where the source compares UTF-8 bytes, which orders them alike.
- InstallationRecord.RecordingEvolves: takes blank text to be spaces, tabs and line ends, and an absolute path to be one that the host accepts and that is not empty.
- Runtimes that are not configured for updates, for which the source returns at once.
- `select_candidate`, repodata and update caches, constructor metadata, policy files, the Python adapter and diagnostics.
