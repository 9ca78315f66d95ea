# agentsh: verified models of its stateful cores

agentsh runs commands of AI agents under supervision. This project models, in Dafny, the parts of it whose
correctness depends on long runs, on concurrency or on many exit paths, and proves what they promise. Nothing was
executed: every statement below is a theorem about the model.

- `Options`, `Decimal`, `Preimage`, `Json`: optional values, decimal text, the hashed bytes of an audit entry, the integrity metadata in a JSON line
- `SinkChain`: the hash chain of one sink as a class, and every interleaving of its operations
- `Integrity`, `Sidecar`: sequence allocator and chain behind one mutex; the state persisted across restarts
- `LogLines`, `RotationSet`, `Verifier`: reading lines, finding the rotated files, walking and verifying them
- `Binding`, `Journal`: what a verifying log is worth; everything that is written verifies
- `VisibleSet`: finding, reading and verifying the files of a directory together
- `Recovery`: starting again after a crash, when the sidecar is behind the log
- `Handshake`: wrapper, notify handler and exec goroutine as a transition system
- `Approvals`: requesters, resolvers, timers and cancellations as a transition system
- `Cgroups`, `AcceptPath`: set-up and teardown of cgroup and eBPF resources, and the accept path around it
- `Archive`: rename with rollback
- `Environment`: in-place filtering and layering of environment variables
- `Capabilities`: capability masks and the population count on 32-bit words

## How libraries and concurrency are modelled

- HMAC (section 2 of RFC 2104) with its hex encoding is a function of key and message with hex output of fixed
  length. It is never assumed injective, which fixed-length output rules out. Theorems that need collision freedom
  conclude "or here are two messages of this very run (or of these two logs) with the same MAC".
- `encoding/json` is a pair of functions: decoding one document, where the literal `null` yields a nil map, and
  encoding a map. What is taken from it is that decoded maps survive a round trip, also without the integrity key
  and with fresh metadata under it, that compact JSON is one line, and that in it a bar or a backslash occurs only inside of
  string literals, all of which are closed.
- `bytes.TrimSpace`, the decoder of rotation events, sorting, and the check of a claimed wrapper pid are function
  values, with what is taken from them as hypotheses.
- A locked region, a channel operation, a system call and a timer firing are each one atomic step; goroutines
  interleave freely, and every step that talks to the outside may fail.
- Go's `int64` and `uint32` are bounded integers with their wrap-around written out; words are bit-vectors.

## Where the code departs from what its comments or callers suggest

The model follows the code. The member named states each of them.

- Wrapping the payload `null` takes a sequence number and then panics on the nil map, so a failed Wrap is not
  without effect (`FailedWrapIsClean`). The store wraps marshalled events only, so this concerns other callers. The
  next line written to the same chain skips a number, and no part of the log that shows the gap ever verifies
  (`NullRunFails`); `VisibleLogVerifies` and `WholeLogVerifies` have the exact condition. On a chain that has written nothing, the state it leaves is refused at
  restart (`NullPayloadBlocksRestart`); `StrandedExactly` has the exact condition.
- A payload that brings a top-level `integrity` key does not verify after wrapping (`RoundTripExactlyWhenClean`).
- A comment in `internal/audit/sink_chain.go` warns that racing commits may be silently accepted. Within a
  generation the code refuses every stale one (`ForkFree`). Only Restore lets a chain fork (`RestoreAllowsReplay`),
  exactly when it goes to a head that something has been chained to (`SafeRestoresForkFree`, `UnsafeRestoreForks`).
- The ACK is written before the serve goroutine is launched. With ptrace sync the command still waits for it
  (`ExecOnlyAfterHandshake`), and with intercepted execve its own exec does; without both it can run first
  (`WithoutSyncExecMayPrecedeServe`). `ServedExactly` is the exact condition.
- Two requests with one id share one pending entry, so the timeout of one denies the other (`SharedIdCrossTalk`);
  this cannot happen exactly when ids are distinct (`OwnExpiriesExactly`). A Resolve that returned true can lose to
  the timer (`TimerOverridesWin`), and only to that (`ReturnsItsWin`).
- The teardown skips clearing the allowlist for cgroup id 0, and does not know of entries that the refresh loop made
  after a tolerated failure. They are not lost: detaching closes the maps they are in, so nothing is left in any
  case (`RunCleanup`). Only the order of release differs then (`TeardownOrder`).
- Archiving under a stamp that is already taken overwrites the older archive, and a rollback does not bring it back
  (`OlderArchiveIsLost`). `ArchiveRotationSet` has the exact condition, on the directory and the call that fails.
- Recovery after a crash walks the newest file only, and compares numbers across in-place resets. It recovers exactly
  when that file holds the entry after the sidecar's and, before it, no larger number of an earlier chain
  (`CrashRecovery`); otherwise the start-up is refused, never resumed elsewhere. After a crash in the middle of a
  write with the sidecar up to date, the first start-up is refused as well, but cuts the file back, so that the next
  one resumes (`CutOffExactly`, `CutLeavesCompleteLines`).
- A backup named `log.01` is listed as `log.1` (`OddSpellingListsMissingFile`). Every listed file exists exactly when
  the numbers are spelled as the rotation spells them (`ListedFilesExist`).
- The comment in `internal/api/exec.go` that the first matching key wins does not matter for overridden keys: they
  occur exactly once (`LayersWin`). It does for the extra variables, which are appended behind the built ones.

## Model

| member | source | states |
|---|---|---|
| `Decimal.ParseFormat` | internal/audit/integrity.go:452-472 | formatting and parsing are inverse over the full int64 range |
| `Decimal.ParsePlus` | internal/audit/logset.go:41-68 | a number with a plus sign is read as well |
| `Decimal.FormatIntInjective` | internal/audit/integrity.go:395-408 | different integers have different decimal text |
| `Preimage.EntryHash` | internal/audit/integrity.go:381-411 | a hash exists exactly for the supported algorithms and is a hex digest of that algorithm's length |
| `Preimage.NoSplit` | internal/audit/integrity.go:373-379 | canonical JSON is not canonical JSON behind a bar: the quote states run in opposition |
| `Preimage.MessageLayout` | internal/audit/integrity.go:395-408 | up to the first bar the hashed bytes parse to the version, up to the second to the sequence number, and then come the previous hash and the payload |
| `Preimage.MessageUnambiguous` | internal/audit/integrity.go:395-408 | the hashed bytes determine version, sequence, previous hash and payload: for hex or empty previous hashes and every payload, and for JSON payloads and every previous hash |
| `Preimage.ClashIsMacCollision` | internal/audit/integrity.go:381-411 | two different contents with one digest are a collision of the MAC itself |
| `AuditJson.MetaRoundTrip` | internal/audit/integrity.go:413-472 | metadata is read back exactly, over the full int64 range, from the four documented keys |
| `AuditJson.MetaReadsFourKeys` | internal/audit/integrity.go:413-472 | only those four keys are read, and without one of them there is no metadata |
| `AuditJson.PayloadParses` | internal/audit/logset.go:217-242 | the canonical payload of an entry parses to the document without its metadata, and is closed |
| `AuditJson.VerifiedExactly` | internal/audit/integrity.go:333-354 | a wrapped line is verified exactly when it has readable metadata whose hash is that of the rest; unparsable text has no verdict, a line without metadata a negative one |
| `AuditJson.PiecewiseVerification` | internal/audit/integrity.go:315-354 | verifying a wrapped line equals parsing it and verifying hash, metadata and canonical payload piece by piece |
| `SinkChains.SinkChain.New` | internal/audit/sink_chain.go:201-215 | short keys and unknown algorithms are refused; otherwise a fresh chain at the empty head |
| `SinkChains.SinkChain.Compute` | internal/audit/sink_chain.go:233-254 | changes nothing; hashes against the head of the current generation or the empty hash of another one; refuses when latched |
| `SinkChains.SinkChain.Commit` | internal/audit/sink_chain.go:293-339 | succeeds exactly when the result is this chain's own, it is not latched, and the result continues its head or opens a later generation, and then head and generation are the result's; every other result but nil latches and keeps head and generation; which error when |
| `SinkChains.SinkChain.Fatal` | internal/audit/sink_chain.go:345-350 | latches and keeps the head |
| `SinkChains.SinkChain.Restore` | internal/audit/sink_chain.go:367-410 | accepts exactly no hash or hex text of 64 digits, 128 for sha512, and is all or nothing |
| `ForkFreedom.ExecKeepsInv` | internal/audit/sink_chain.go:233-339 | every interleaving in which a Restore only puts back what is there keeps the commits one linked list that ends at the head |
| `ForkFreedom.HashesDistinct` | internal/audit/sink_chain.go:293-339 | hash chains are acyclic: committed digests of one generation differ, by descent to the empty genesis hash |
| `ForkFreedom.ForkFree` | internal/audit/sink_chain.go:233-339 | in every such interleaving no result commits twice and at most one of all results of one head commits, or two hashed messages of the run collide |
| `ForkFreedom.LatchIsSticky` | internal/audit/sink_chain.go:233-350 | after the latch no operation but Restore changes the head, computes or commits |
| `ForkFreedom.CommitsExactly` | internal/audit/sink_chain.go:293-339 | in every state, which presented results are committed, on generations and hashes; the others latch the chain where it was |
| `ForkFreedom.RefusedEndsChain` | internal/audit/sink_chain.go:293-339 | after a presented result that is not committed, nothing more is computed or committed until a Restore, whatever is called |
| `ForkFreedom.RestoreAllowsReplay` | internal/audit/sink_chain.go:367-377 | with a Restore the same result commits twice |
| `ForkFreedom.SafeRestoresForkFree` | internal/audit/sink_chain.go:233-377 | in every interleaving in which each Restore goes to a head nothing has been chained to there is no fork, or a collision, or the chain produces a hash that had been restored from elsewhere |
| `ForkFreedom.UnsafeRestoreForks` | internal/audit/sink_chain.go:233-377 | from every other head one result and its commit make a fork |
| `ForkFreedom.EchoForks` | internal/audit/sink_chain.go:233-377 | a run that forks by producing a restored hash again |
| `SequenceAllocators.SequenceAllocator.Next` | internal/audit/sequence_allocator.go:51-59 | the next number of the same generation, or overflow without effect |
| `SequenceAllocators.SequenceAllocator.NextGeneration` | internal/audit/sequence_allocator.go:69-78 | the next generation, numbered from the start again, or overflow without effect |
| `SequenceAllocators.SequenceAllocator.Restore` | internal/audit/sequence_allocator.go:91-100 | all or nothing; refuses exactly sequences below -1 |
| `Integrity.IntegrityChain.constructor` | internal/audit/integrity.go:82-91 | a new chain is valid and at the genesis state |
| `Integrity.IntegrityChain.Wrap` | internal/audit/integrity.go:201-240 | which payload has which outcome and what it does to number and hash; on every outcome the inner chain is unlatched and in generation 0: its Compute and Commit never fail |
| `Integrity.IntegrityChain.Restore` | internal/audit/integrity.go:266-288 | all or nothing over allocator and chain; succeeds exactly for a number from -1 on and no hash or a digest of the right size |
| `Integrity.FailedWrapIsClean` | internal/audit/integrity.go:201-240 | a failed Wrap changes nothing, exactly except for the payload `null` |
| `Integrity.WrapVerifies` | internal/audit/integrity.go:201-240 | a wrapped line verifies and parsing it recovers type, metadata and the canonical payload that was hashed |
| `Integrity.RoundTripExactlyWhenClean` | internal/audit/integrity.go:333-354 | the line verifies exactly when the payload has no integrity key, or its digest clashes with the stripped payload's |
| `Integrity.SequenceCounts` | internal/audit/integrity.go:201-252 | after any run the sequence number is the number of well-formed payloads, stopping at the largest int64 |
| `Integrity.NumbersAreConsecutive` | internal/audit/integrity.go:201-240 | the entry written after any run carries the next number, as parsed back from the line |
| `Sidecar.ReadSidecar` | internal/audit/sidecar.go:45-95 | a missing or empty field is corrupt, a newer format is refused as unsupported, and of the others exactly no hash before the first entry and a hex one after it are accepted, unchanged |
| `Sidecar.PersistedReadsBack` | internal/audit/sidecar.go:45-149 | of the restorable states, what was written is accepted and unchanged exactly for the coherent ones |
| `Sidecar.WrapKeepsCoherence` | internal/audit/integrity.go:201-252 | Wrap keeps the state fit for the sidecar, exactly except for `null` on a new chain |
| `Sidecar.RestartsAreInvisible` | internal/audit/integrity.go:243-288 | a run with restarts anywhere has the outcomes and the end state of the run without them, exactly when no restart with writes after it meets an incoherent state |
| `Sidecar.WithoutNullNeverStranded` | internal/audit/sidecar.go:45-95 | without `null` payloads that condition holds for every run from a coherent state |
| `Sidecar.StrandedExactly` | internal/audit/sidecar.go:45-95 | from a coherent state that condition fails exactly when nothing is written yet and the operations hold a `null` payload, then a restart before any entry, then a write |
| `Sidecar.RestartsFromSidecar` | internal/audit/sidecar.go:45-95 | from every accepted sidecar restarts are invisible, exactly unless that happens |
| `Sidecar.NullPayloadBlocksRestart` | internal/audit/sidecar.go:45-95 | the run in which it does |
| `LogLines.NewlineParts` | internal/cli/audit_chain.go:704-743 | what the lines of a file are: a newline parts the lines before it from those behind it, and text without one is one line unless blank |
| `LogLines.ReadLastForward` | internal/cli/audit_chain.go:704-743 | the forward scan returns the last line whose trim is not empty |
| `LogLines.ScanChunk` | internal/audit/logset.go:120-178 | scanning one chunk backwards finds the last non-blank line that starts in it, or leaves the rest of a line |
| `LogLines.ReadLastBackward` | internal/audit/logset.go:120-178 | the backward scan returns the same line for every content and every positive chunk size, and terminates |
| `RotationSet.DiscoverRotationSet` | internal/audit/logset.go:31-86 | succeeds exactly when the backup numbers are 1..n, each once, and backups come with a log; then lists them oldest first |
| `RotationSet.ListedFilesExist` | internal/audit/logset.go:31-86 | every listed file is in the directory exactly when the numbers are spelled as the rotation spells them |
| `RotationSet.OddSpellingListsMissingFile` | internal/audit/logset.go:41-68 | with another spelling it need not be |
| `RotationSet.BackupsAreNumbered` | internal/audit/logset.go:31-86 | where the numbers are spelled so and have no gap, the backups that exist are exactly those from 1 to the last |
| `Verifier.VerifyRotationBoundary` | internal/cli/audit_verify.go:538-564 | which rotation events are accepted, as the first visible entry and later |
| `Verifier.VerifyLine` | internal/cli/audit_chain.go:306-423 | one line is accepted exactly when it is a sealed entry that may start or continue the log |
| `Verifier.SealedIsVerified` | internal/audit/integrity.go:315-330 | re-parsing the canonical payload changes nothing, so the hash check is the seal |
| `Verifier.ValidLogSays` | internal/cli/audit_chain.go:306-423 | what an accepted log is, on the parsed lines: current format and the hash of the content everywhere; number 0 and no hash at the start of a log without backups; each entry continues the one before, or as a rotation event names its number and hash |
| `Verifier.VerifyFile` | internal/cli/audit_chain.go:306-423 | the line loop over the bytes of one file decides whether the log so far, extended by the file, is valid |
| `Verifier.VerifyVisible` | internal/cli/audit_chain.go:306-423 | the verifier accepts exactly the valid logs, over any number of files, vanished ones included |
| `Binding.EqualHashEqualEntry` | internal/audit/integrity.go:315-330 | in verifying logs, equal hashes mean equal entries, whatever the previous hash of the oldest, or a clash |
| `Binding.TailsAgree` | internal/cli/audit_chain.go:306-423 | logs with the same last hash agree on any common number of newest entries |
| `Binding.ChainBinding` | internal/cli/audit_chain.go:306-423 | verifying logs with the same last hash agree entry by entry, and are equal when both start at an anchored entry, or hold a clash |
| `Binding.SequenceIsPosition` | internal/cli/audit_chain.go:306-423 | in a log without rotation events that starts at 0 the sequence number is the position, wrapping at int64 |
| `Binding.CountedBinding` | internal/cli/audit_chain.go:306-423 | linked, consecutive entries without rotation events that start at sequence 0 and end in the same hash are equal, lengths included, or hold a clash |
| `Binding.CountedLogs` | internal/cli/audit_chain.go:306-423 | the same for the lines of two verifying logs |
| `Binding.UnrotatedBinding` | internal/cli/audit_chain.go:306-423 | two verifying logs that start outside of backups and without rotation event, and end in the same hash, are equal or hold a clash |
| `Binding.ClashBreaksMac` | internal/audit/integrity.go:381-411 | a clash between two logs is a MAC collision on two of their hashed messages |
| `Journal.StepKeepsInv` | internal/cli/audit_chain.go:172-304 | appending, `null` payloads included, restarting and resetting in place keep the written log linked and anchored, out of sequence exactly after a skipped number, and in step with the persisted state |
| `Journal.VisibleLogVerifies` | internal/cli/audit_chain.go:306-423 | any newest part of what a run wrote verifies exactly when no number is skipped inside it and its first line is in a backup, or the first of the log and not skipped to |
| `Journal.WholeLogVerifies` | internal/cli/audit_chain.go:306-423 | the whole log verifies exactly when no line was written to a chain that had seen a `null` payload |
| `Journal.WithoutNullUnbroken` | internal/audit/integrity.go:201-240 | a run without `null` payloads skips no number |
| `Journal.NullBreaksLog` | internal/audit/integrity.go:201-240 | after a `null` payload the next line is written with a skipped number |
| `Journal.NullRunFails` | internal/cli/audit_chain.go:306-423 | after any run, a `null` payload and then an entry leave a log that does not verify |
| `Journal.RotatedFilesVerify` | internal/cli/audit_chain.go:306-423 | the same on bytes: cut into files anywhere, any number of oldest lines dropped |
| `Journal.TamperEvident` | internal/cli/audit_chain.go:306-423 | a verifying log that ends in the persisted hash is the newest part of what was written, and all of it when anchored, or there is a clash; for every run and every shown log |
| `VisibleSet.VisibleRotationSetVerifies` | internal/cli/audit_chain.go:306-423 | over a directory: refused exactly when the set of files is incomplete, otherwise true exactly when the log the files hold is valid |
| `VisibleSet.DirectoryVerifies` | internal/audit/logset.go:31-86 | what a run wrote, cut into a log and numbered backups in any directory, is found, and verifies exactly under the condition above |
| `VisibleSet.ReadLastNonEmptyLine` | internal/audit/logset.go:89-102 | the newest line over all files, with the backward reader |
| `VisibleSet.ReadLastBestEffort` | internal/cli/audit_chain.go:681-744 | the same line, with the forward reader |
| `Recovery.RecoverFromSidecarGap` | internal/store/integrity_wrapper.go:351-453 | the loop over the bytes of the newest file computes the walk, and cuts the file back to the lines before one that does not parse |
| `Recovery.ResumeFromSidecar` | internal/store/integrity_wrapper.go:293-345 | which of the three a start-up does: resume with the sidecar, walk on from it, or refuse; the file is cut only where the walk stops; the lemmas below say what that means |
| `Recovery.ResumesWithHeld` | internal/store/integrity_wrapper.go:293-453 | for every sidecar and file: the start-up resumes only with an entry of the file whose hash checks out, the last one if it is the sidecar's, else one with a larger number |
| `Recovery.TruncatedIsRefused` | internal/store/integrity_wrapper.go:293-453 | a newest file that ends before the sidecar's entry, in that chain or an earlier one, with a cut-off line or not, is refused |
| `Recovery.RecoversExactly` | internal/store/integrity_wrapper.go:351-453 | over every log written without gaps the walk ends at the last entry exactly when the newest file is recoverable, and breaks otherwise |
| `Recovery.ResumesExactly` | internal/store/integrity_wrapper.go:293-345 | the start-up resumes with the last state exactly when the sidecar is up to date or the file recoverable |
| `Recovery.CutOffExactly` | internal/store/integrity_wrapper.go:293-453 | the same with a line that was cut off, and when the walk stops at it |
| `Recovery.CutLeavesCompleteLines` | internal/store/integrity_wrapper.go:383-397 | the cut leaves exactly the complete lines |
| `Recovery.CrashRecovery` | internal/store/integrity_wrapper.go:293-453 | for every run, flush point and newest file: the start-up has the state of the run without the crash exactly then, or is refused, or the log holds a clash |
| `Recovery.LostLinesRefused` | internal/store/integrity_wrapper.go:293-453 | for every run and every newest file that has lost its last lines since the flush: the start-up is refused, or the log holds a clash |
| `Handshake.StepKeepsInv` | internal/api/notify_linux.go:187-394 | every step of wrapper, handler and exec goroutine, failures included, keeps the causal order and the exact content of both queues |
| `Handshake.ExecOnlyAfterHandshake` | cmd/agentsh-unixwrap/main.go:117-262 | with notify fd and ptrace sync the command runs only after filter, fd, probe, ACK, serve launch, restriction, READY, attach, resume and GO |
| `Handshake.ExecOnlyRestricted` | cmd/agentsh-unixwrap/main.go:85-262 | whatever is on, the command runs only in a restricted wrapper with its filter installed, and with a notify fd only after it was received, probed and acknowledged |
| `Handshake.ReadyChannel` | internal/api/notify_linux.go:187-394 | the exec goroutine passes the wait only after READY; every handler exit leaves a value; the handler's send never blocks |
| `Handshake.NoUnexpectedByte` | internal/api/exec.go:374-463 | no byte is taken for another, though the ACK is not checked |
| `Handshake.WithoutSyncExecMayPrecedeServe` | internal/api/notify_linux.go:187-394 | without ptrace sync and without execve interception the command can run before anyone serves its notifications |
| `Handshake.ServedExactly` | cmd/agentsh-unixwrap/main.go:85-262 | with a notify fd, the command runs only when it is served, exactly if ptrace sync is on or execve is intercepted |
| `Handshake.HandshakeCompletes` | internal/api/exec.go:374-463 | with ptrace sync the handshake can complete and the command run |
| `Handshake.HeldUntilResumed` | internal/api/exec.go:416-441 | with a hook the wrapper takes no step between attach and resume but to be killed |
| `Handshake.DeadStaysDead` | internal/api/exec.go:374-463 | a killed wrapper never runs the command |
| `Handshake.FailedIsDead` | internal/api/exec.go:400-463 | in every reachable state a start that was given up has a dead wrapper |
| `Handshake.FailedStart` | internal/api/exec.go:400-463 | after a failed wait, attach, resume or GO write, however the run goes on, the start has failed, the command never runs under notify fd and ptrace sync, and the kill leaves the wrapper dead for good |
| `Handshake.ClosedSocketSilences` | internal/api/notify_linux.go:187-394 | once the handler has closed its socket nothing more is sent over it, and a wrapper without its GO never runs the command |
| `Approvals.StepKeepsInv` | internal/approvals/manager.go:179-286 | every step keeps the pending map, the channels, the deliveries under way and the counts consistent |
| `Approvals.RateConserved` | internal/approvals/manager.go:197-286 | pending requests are at most the count, the count equals the admitted calls in flight and stays within the limit, and no zero or negative count is stored |
| `Approvals.TurnedAwayExactly` | internal/approvals/manager.go:197-211 | a call is turned away exactly when there is a limit and its session has that many calls in flight |
| `Approvals.WonOnce` | internal/approvals/manager.go:179-195 | a step wins a call exactly when its Resolve returns true for it, and then with the resolution that Resolve was given |
| `Approvals.AtMostOneWin` | internal/approvals/manager.go:179-195 | over a whole run a call is won at most once, and what it was won with never changes |
| `Approvals.WinIsGiven` | internal/approvals/manager.go:179-195 | over a whole run a call is won with what some Resolve of the run was given that returned true for it, an approval only by a Resolve from outside |
| `Approvals.ExpiryDenies` | internal/approvals/manager.go:197-286 | once timeout or cancellation is chosen the call never returns an approval |
| `Approvals.SingleWinner` | internal/approvals/manager.go:179-286 | at most one Resolve returns true, its send never drops, an approval is returned only if some Resolve of the run was given that very approval and returned true for the call, and a returned call is not pending |
| `Approvals.WinIsReturned` | internal/approvals/manager.go:179-286 | while a call waits, the winning resolution can be delivered and is returned unchanged |
| `Approvals.ReturnsItsWin` | internal/approvals/manager.go:197-286 | in every interleaving a returned call has the resolution it was won with, exactly unless its timer or cancellation was chosen; then it has its own denial |
| `Approvals.OwnExpiriesExactly` | internal/approvals/manager.go:197-286 | in every interleaving of given requests a timeout removes only its own entry, exactly when their ids are distinct |
| `Approvals.SharedIdRun` | internal/approvals/manager.go:197-286 | a run from the start in which it removes another's |
| `Approvals.SharedIdCrossTalk` | internal/approvals/manager.go:197-286 | with a shared id the timeout of one call denies another |
| `Approvals.SharedIdArises` | internal/approvals/manager.go:197-286 | how a shared id gets there |
| `Approvals.TimerOverridesWin` | internal/approvals/manager.go:179-286 | a winning approval can lose to the timer |
| `Cgroups.Gate` | internal/api/cgroups.go:79-186 | before a cgroup exists: when set-up proceeds, degrades or is refused as unavailable, on the flags: unavailable limits or cgroups are passed over exactly under best effort with eBPF neither enabled, enforced nor required, and with limits and without best effort there is no success without a cgroup |
| `Cgroups.Detach` | internal/netmonitor/ebpf/attach_linux.go:65-69 | detaching closes the program and its maps, with whatever allowlist entries are in them |
| `Cgroups.CleanupEbpf` | internal/api/cgroups.go:211-229 | releases everything that eBPF holds, late populations of a cancelled refresh loop included, and unsets the variables |
| `Cgroups.CleanupResources` | internal/api/cgroups.go:211-251 | after the teardown nothing is held, whatever the state before |
| `Cgroups.TeardownOrder` | internal/api/cgroups.go:211-251 | the teardown of every set-up state releases in reverse order of acquisition, exactly unless the entries come from the refresh loop |
| `Cgroups.RefreshTick` | internal/api/cgroups.go:380-420 | one firing of the refresh loop, and when the entries it makes are accounted for by no variable |
| `Cgroups.PopulateAllowlist` | internal/api/cgroups.go:331-420 | when populating fails the set-up, and then nothing is held; what is held otherwise |
| `Cgroups.Enforce` | internal/api/cgroups.go:312-421 | enforcement set-up fails exactly when required and the cgroup id or the population fails |
| `Cgroups.StartCollector` | internal/api/cgroups.go:423-450 | a failing collector tears down everything when required and the eBPF part otherwise |
| `Cgroups.AttachEbpf` | internal/api/cgroups.go:262-465 | errors exactly when eBPF is required and a step fails, and then everything is torn down |
| `Cgroups.ApplyCgroupV2` | internal/api/cgroups.go:79-468 | when it fails, and then each resource has been released exactly once; success hands out a teardown for exactly what is held, in reverse order of acquisition for every tolerated failure, exactly unless the refresh loop made the entries; required eBPF is in force on success; what is attached, refreshed and degraded is stated on the flags |
| `Cgroups.RunCleanup` | internal/api/cgroups.go:211-251 | over a whole life, refresh loop included, the cleanup leaves nothing, whatever the cgroup id, the firings and the tolerated failures; in reverse order of acquisition exactly unless the refresh loop made the entries |
| `AcceptPath.SelectPeer` | internal/api/wrap.go:758-796 | the first acceptable peer is served, on its kind and user id; all before it are closed, and all of them when there is none |
| `AcceptPath.SetUpForWrap` | internal/api/wrap.go:885-955 | set-up for a wrapper fails exactly without a pid or when not tolerated; unavailability is tolerated unless eBPF is required |
| `AcceptPath.StartHandler` | internal/api/wrap_linux.go:77-175 | the handler starts exactly unless the memory probe condemns it, and then fd, cgroup and symlink are given back |
| `AcceptPath.EndHandler` | internal/api/wrap_linux.go:177-198 | the defers give back symlink, cgroup and fd, each once |
| `AcceptPath.ServePeer` | internal/api/wrap.go:796-865 | exactly one status, last; true exactly for the peers to be served, after handler start and set-up for a believed pid; ownership goes to the handler or everything is given back |
| `AcceptPath.AcceptNotifyFd` | internal/api/wrap.go:745-865 | over a completed run every peer is closed, at most one is served, and every resource is released exactly once |
| `Archive.Directory.Rename` | internal/cli/audit_chain.go:500-509 | a rename, the missing source and the failing call; every existing folder is refused as target |
| `Archive.RenameMoves` | internal/cli/audit_chain.go:496-511 | a rename changes the place of one move and nothing else |
| `Archive.MovesDistinct` | internal/cli/audit_chain.go:483-494 | no name occurs twice among sources and targets |
| `Archive.ArchiveableSuffixes` | internal/cli/audit_chain.go:519-552 | the scan finds exactly the log and its numbered files, every number included and folders left out, in whatever order the directory is listed |
| `Archive.RollBack` | internal/cli/audit_chain.go:503-507 | undoes every completed move when the renames back succeed |
| `Archive.Restored` | internal/cli/audit_chain.go:496-511 | with every move undone the directory is as before exactly when no undone move had overwritten a target |
| `Archive.ArchiveRotationSet` | internal/cli/audit_chain.go:477-512 | succeeds exactly when no move fails, and then log, numbered files and sidecar are under their stamped names with their content; after the first failing move and a working rollback none has moved, and the directory is as before exactly when no move before it had overwritten a target, so for fresh targets; content and other names are never touched |
| `Archive.OlderArchiveIsLost` | internal/cli/audit_chain.go:477-512 | a directory and a failing call after which the older archive is gone |
| `Environment.CutEntry` | internal/api/exec.go:219-229 | an entry written for a name without '=' is parted into that name and value |
| `Environment.LookupLayer` | internal/api/exec.go:212-233 | after a layer its keys have its values, exactly once, and other keys are looked up as before |
| `Environment.LayersWin` | internal/api/exec.go:203-250 | service over injected over earlier variables; overridden keys occur exactly once; all other entries keep their order |
| `Environment.OnlyPlainNamesAreFound` | internal/api/exec.go:203-250 | a key with '=' in it is never found |
| `Environment.LayerExactly` | internal/api/exec.go:212-233 | a layer gives all its keys their values exactly when they are free of '=' |
| `Environment.DropInPlace` | internal/api/exec.go:217-225 | compacting the array over itself keeps exactly the entries that name no key, in order |
| `Environment.Append` | internal/api/exec.go:223-229 | appending in place or into a larger array |
| `Environment.BuildEnvironment` | internal/api/exec.go:203-250 | the slice operations compute the two layers, and every variable has its service value, else its injected one, else its built one, else its extra one |
| `Capabilities.PopCountCorrect` | internal/capabilities/check_caps_linux.go:253-258 | the parallel count, modulo 2^32, is the number of set bits, for every word |
| `Capabilities.PopCount32` | internal/capabilities/check_caps_linux.go:253-258 | the same for the sequence of assignments |
| `Capabilities.FullMaskBits` | internal/capabilities/check_caps_linux.go:127-142 | the mask has exactly the bits 0..lastCap, for every lastCap |
| `Capabilities.CapsDropped` | internal/capabilities/check_caps_linux.go:214-246 | the report counts exactly the capabilities up to lastCap missing from each set |
| `Capabilities.MissingRange` | internal/capabilities/check_caps_linux.go:214-246 | counts lie between 0 and the total, and are 0 exactly when nothing is missing |
| `Capabilities.HighBitsIgnored` | internal/capabilities/check_caps_linux.go:214-246 | bits above lastCap do not matter |
| `Capabilities.ReadBoundingSet` | internal/capabilities/check_caps_linux.go:286-315 | the walk returns exactly the capabilities reported present, or fails exactly when a call is refused |
| `Capabilities.ProbeCapabilityDrop` | internal/capabilities/check_caps_linux.go:68-119 | dropping is reported exactly when a capability up to lastCap is missing from the permitted or the readable bounding set |

## Left out

- Key loading, KMS providers, key fingerprints and the write-sync-rename steps of the sidecar file: the content of the file is modelled, not how it gets to the disk.
- The cryptographic strength of HMAC: theorems exhibit the colliding messages instead of excluding them.
- Summaries, reports and tolerance for a truncated last line in the `audit verify` command, and the start-up without a sidecar.
- Sort order of the files that are archived: the theorem holds for every order of the moves. I/O errors of the directory listing, which come before the first rename, are not modelled.
- Event emission, logging and metrics everywhere.
- Cgroups.CleanupResources: a failing close of the cgroup counts as its release, as the code does not retry it.
- The deadline of the accept loop and the socket directory around it: accepting fails when the given peers run out.
- The check of a claimed wrapper pid against /proc is a parameter of the accept path.
- Terminal and TOTP prompts and WebAuthn in the approvals manager, and its list of pending requests.
- The signal fd, the Landlock and seccomp calls and the retry on interrupted reads in the handshake: each read and write is one step that succeeds or fails.
- Building the base environment from the policy, and the shim variables, come before the part that is modelled.
- Detail texts of the capability probe, and a failing capget or cap_last_cap, which end the probe before it computes anything.
- Windows and macOS variants, HTTP and gRPC handlers, the policy engine, network and DNS code, configuration: no hard invariant of the kind proved here.
