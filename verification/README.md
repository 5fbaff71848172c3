# A verified model of FirecREST's protocols, arithmetic and parsers

FirecREST answers HTTP requests by running commands over pooled SSH connections, by streaming
files over websockets, by handing out pre-signed S3 URLs, and by parsing what Slurm, PBS and GNU
tools print. This project models the parts of it in which something can go subtly wrong, and
proves for all inputs, or for all runs, what those parts promise. Where the code as written does
not meet a promise, the exact condition under which it does is proved instead.

Check everything with `dafny verify dfyconfig.toml`.

## Modules

| file | what it models |
|---|---|
| `Prelude.dfy`, `Text.dfy`, `Utf8.dfy` | bytes, decimal text, `split`, `join`, `rstrip`, UTF-8 encoding |
| `SshPoolProtocol.dfy` | the connection pool as an interleaving of atomic steps, cut at the `await`s; safety over all runs |
| `SshPoolEffects.dfy` | what each step does to which entry, and that an open connection serves all later tasks of its user |
| `SshPoolCapacity.dfy` | the soft capacity limit: an upper bound over all runs, and runs that attain it |
| `SshPoolTiming.dfy` | when prune can close a connection under a running command |
| `SshPoolAlternatives.dfy` | two designs the code avoids, each of which leaks a connection |
| `SshPool.dfy` | `SSHClientPool` as a class whose methods perform exactly the protocol's steps |
| `Streamer.dfy` | the file streamer: sender, receiver, end-of-file frames, inbound limit |
| `StreamerOutcomes.dfy` | when the receiver answers success, for any peer, and what the messages and close codes say |
| `BoundedRead.dfy` | `SSHClient.execute` with its output limit, and the `dd` view built on it |
| `Base64Copy.dfy` | the base64 codec, and small-file upload and download under the same limit |
| `FloatCeiling.dfy`, `FloatRounding.dfy` | IEEE 754 double division followed by `ceil`, against integer ceiling division; the rounded double exists |
| `Multipart.dfy` | part numbering on the server, the sequential .NET uploader, reassembly |
| `JobMerge.dfy` | merging accounting and queue records, CLI and REST |
| `SlurmTime.dfy`, `SlurmRows.dfy` | Slurm durations and 20-column accounting rows |
| `LsListing.dfy` | the parser of `ls -l --quoting-style=c`, recursive or not |
| `LsReaders.dfy` | its regular expression, tokeniser and split into lines, on any text |
| `LsPrinter.dfy`, `LsRoundTrip.dfy` | what `ls` prints for a directory tree, and the round trip |
| `FsAdmission.dfy` | file system admission by string prefix against containment of path components |
| `NodeRanges.dfy` | node lists, as the PBS client and the OnDemand adapter expand them |
| `IdOutput.dfy` | the `id` line |
| `Sbatch.dfy` | the `sbatch` command line against shell tokenisation |

The form follows the source: what updates fields (`SSHClientPool`, the .NET uploader, the job
dictionary) is a class with `modifies` clauses, loops are methods with invariants, and what is
made of expressions is functions. Each method is proved equal to a specification function or
state transition, and the properties are lemmas about those.

## What the code does where its documentation says otherwise

- **Streamer.** The sender's end-of-file message is a binary frame with spaced JSON; the receiver
  recognises only a text frame without the space. `OwnEofIsStoredAsData` proves what a complete
  transfer then leaves on disk, and `FileIsLeftIff` proves that the file is left exactly if the
  transfer is cut after its last chunk and before its eof. `CutTransfer` shows that a cut anywhere
  else leaves a truncated file, answered as a success if the connection was closed cleanly.
  `RecognisedEofCompletesTheCopy` proves the intended round trip.
- **Pool timing.** The constructor requires `idle_timeout > execute_timeout`, but health checks
  assign `execute_timeout` later without that check. `PruneSparesBusyIff` proves that no
  assignment may exceed `idle_timeout`, and that this is enough.
- **Small-file upload.** An empty content is never written to the command's standard input, so
  the upload of an empty file times out (`UploadSucceedsIff`). Sizes between
  `3 * ((limit - 1) / 4)` and the limit can be uploaded but not downloaded (`CopyRoundTrip`), and
  the size check after a download never fires (`DownloadSucceedsIff`).
- **Part count.** `ceil(size / part)` in double precision is the integer ceiling for every size up
  to `2^53` and not beyond (`CeilingsExactIff`).
- **REST filters.** The conditional expression in `get_job` is not the predicate of `get_jobs`;
  `FiltersDifferIff` says for which records they differ.
- **View.** The window is cut from decoded characters, not from bytes. For limits above two bytes,
  `ViewsAreWindowsIff`, `RepliesAreHonestIff` and `ViewsTileIff` prove that every reply is the
  requested window, and that successive views tile a text of any length, exactly for ASCII files.
- **Listing.** Folder headers and control characters are not unescaped, entries of devices match no
  pattern and are dropped, blanks in the name of an owner shift the columns, and below a path of two
  or more slashes the names keep slashes in front. `TreeRoundTripIff` proves for every tree of ASCII
  names that the listing reads back exactly if and only if none of these occurs.
- **Admission.** `os.path.normpath` keeps exactly two leading slashes, so such a path is under no
  ordinary mount (`TwoSlashesLeaveTheMount`); a mount listed after its parent is never chosen.
- **`id`.** A number without a name is printed bare, and the parser then loses its last character
  or runs on into the next field; without a group list it makes up entries. `IdRoundTripIff` proves
  that the line reads back exactly if everybody on it has a name and there is a group list.
- **Node ranges.** The two expanders differ exactly on non-empty ranges whose end is written wider
  than the start (`ExpandersAgreeIff`).

## Model

| member | source | states |
|---|---|---|
| SshPoolProtocol.PoolIsSafeInEveryRun | src/lib/ssh_clients/ssh_client.py:160-168 | in every interleaving: tasks share a lock exactly when they share a user, at most one task of a user is between lookup and insert, an opening user has no entry, and every connection not yet closed is the entry of its user |
| SshPoolProtocol.StepKeepsSafe | src/lib/ssh_clients/ssh_client.py:186-195 | the inductive invariant is kept by every step of tasks, prune, the peer, health checks and the clock |
| SshPoolProtocol.RunKeepsSafe | src/lib/ssh_clients/ssh_client.py:269-330 | the invariant is kept over any run from any safe state |
| SshPoolProtocol.EnterKeepsSafe | src/lib/ssh_clients/ssh_client.py:276-292 | lock acquired, closed client dropped, checkout or capacity refusal or start of an open: the invariant is kept |
| SshPoolProtocol.ConnectedKeepsSafe | src/lib/ssh_clients/ssh_client.py:300-325 | a finished open inserts, releases the lock and checks out, keeping the invariant |
| SshPoolProtocol.OpenFailedKeepsSafe | src/lib/ssh_clients/ssh_client.py:312-323 | a failed open leaves the lock, at once or after the debug report, keeping the invariant |
| SshPoolProtocol.PruneKeepsSafe | src/lib/ssh_clients/ssh_client.py:186-195 | closing idle clients and dropping closed ones keeps the invariant; a closing connection stays in the pool |
| SshPoolProtocol.InsertNeverOverwrites | src/lib/ssh_clients/ssh_client.py:311-311 | the insert adds a new key and changes no other entry |
| SshPoolProtocol.LocksAreNeverReplaced | src/lib/ssh_clients/ssh_client.py:269-270 | a user's lock stays that user's lock for the rest of any run |
| SshPoolEffects.EnterReuses | src/lib/ssh_clients/ssh_client.py:280-326 | a task whose user has a connection not yet closed holds exactly that connection, last used now, and entries, locks and the number of connections stay the same |
| SshPoolEffects.EnterForgetsClosed | src/lib/ssh_clients/ssh_client.py:280-284 | otherwise only the entry of that user goes, and no other entry or connection changes |
| SshPoolEffects.EnterMovesOneTask | src/lib/ssh_clients/ssh_client.py:276-292 | entering moves no other task |
| SshPoolEffects.EnterOpens | src/lib/ssh_clients/ssh_client.py:286-292 | below capacity such a task opens with its user's lock held |
| SshPoolEffects.EnterRefuses | src/lib/ssh_clients/ssh_client.py:286-292 | at capacity it is refused and the lock is free |
| SshPoolEffects.ConnectedChecksOut | src/lib/ssh_clients/ssh_client.py:300-326 | a finished open adds one live connection with the settings of the pool, cached for its user and held by the task, and frees the lock |
| SshPoolEffects.FailureReleasesTheLock | src/lib/ssh_clients/ssh_client.py:312-323 | a failed open frees the lock, at once or after the report, and leaves entries and connections as they were |
| SshPoolEffects.PruneClosesIdle | src/lib/ssh_clients/ssh_client.py:186-195 | exactly the cached open connections unused for longer than their timeout start to close, and exactly the users whose connection is closed are forgotten |
| SshPoolEffects.UseChangesTheStage | src/lib/ssh_clients/ssh_client.py:324-330 | running a command, finishing it, leaving and giving up change the stage of that task and nothing else |
| SshPoolEffects.OutsideStepsChangeOneThing | src/lib/ssh_clients/ssh_client.py:135-139 | a connection that ends is closed and stays cached; a new timeout and the clock change nothing else |
| SshPoolEffects.OpenConnectionsAreReused | src/lib/ssh_clients/ssh_client.py:273-326 | over any run from a safe state: while a cached connection of a user is not closed, every later task of that user that gets one gets this one, and no second connection of that user is made |
| SshPoolCapacity.CapacityBound | src/lib/ssh_clients/ssh_client.py:286-292 | entries plus opens in flight never exceed `max_clients - 1` plus the peak number of simultaneous opens; one opener at a time makes the limit hard |
| SshPoolCapacity.CapacityBoundIsAttained | src/lib/ssh_clients/ssh_client.py:287-292 | for every capacity and every peak there is a run that reaches the bound, so the limit is soft by exactly that much |
| SshPoolCapacity.OpenersHaveDistinctUsers | src/lib/ssh_clients/ssh_client.py:276-311 | simultaneous opens are for pairwise distinct users |
| SshPoolCapacity.StepCounts | src/lib/ssh_clients/ssh_client.py:286-311 | only entering the lock below capacity adds an opener, a finished open turns an opener into an entry, and nothing else makes either number grow |
| SshPoolTiming.PruneSparesBusyIff | src/lib/ssh_clients/ssh_client.py:183-195 | with prompt use, prune never closes a connection under a command in any run if and only if no `execute_timeout` assigned later exceeds `idle_timeout` |
| SshPoolTiming.RunKeepsTimely | src/lib/ssh_clients/ssh_client.py:126-133 | the timing invariant behind it, for connections shared by several tasks of a user |
| SshPoolTiming.BreaksAboveIdle | src/firecrest/status/health_check/checks/health_check_filesystem.py:35-35 | one assignment above `idle_timeout` suffices for a run in which prune closes a busy connection |
| SshPoolAlternatives.SplitPruneLosesAnInsert | src/lib/ssh_clients/ssh_client.py:192-195 | if prune's read and its assignment were two steps, a connection made in between would leak |
| SshPoolAlternatives.PrunedLockLeaksAConnection | src/lib/ssh_clients/ssh_client.py:163-167 | if a fetched but unheld lock were pruned, two tasks of one user would open and one connection would leak |
| SshPool.SSHClientPool.Create | src/lib/ssh_clients/ssh_client.py:183-184 | the pool is refused exactly when `idle_timeout <= execute_timeout`, and starts in the safe initial state |
| SshPool.SSHClientPool.GetUserLock | src/lib/ssh_clients/ssh_client.py:269-270 | an existing lock is returned unchanged, otherwise one new lock is made for this user only |
| SshPool.SSHClientPool.GetClient | src/lib/ssh_clients/ssh_client.py:273-275 | the new state is the arrival step, and safe |
| SshPool.SSHClientPool.EnterLock | src/lib/ssh_clients/ssh_client.py:276-292 | the new state is the entering step, and safe |
| SshPool.SSHClientPool.CompleteOpen | src/lib/ssh_clients/ssh_client.py:304-325 | the new state is the connected step, and safe |
| SshPool.SSHClientPool.ResetIdle | src/lib/ssh_clients/ssh_client.py:126-129 | only this connection's last use changes, to the current time |
| SshPool.SSHClientPool.CloseIdleClients | src/lib/ssh_clients/ssh_client.py:188-190 | the loop, in any order of the dictionary, starts closing exactly the idle open clients |
| SshPool.SSHClientPool.PruneConnectionPool | src/lib/ssh_clients/ssh_client.py:186-195 | the new state is the prune step, and safe |
| Streamer.ChunksCutTheFile | src/firecrest-streamer/src/streamer/streamer_core.py:115-134 | as many chunks as announced, none empty, all but the last full, together the file |
| Streamer.StreamSend | src/firecrest-streamer/src/streamer/streamer_core.py:111-158 | the frames are init, the chunks, eof with the digest of the file, up to where the connection ends; success exactly when all were sent, and close code 1011 asked for exactly when the peer had closed cleanly |
| Streamer.StreamReceive | src/firecrest-streamer/src/streamer/streamer_core.py:161-217 | for any target, limit, frame sequence and ending: return value, what is on disk and the close code |
| Streamer.DrainData | src/firecrest-streamer/src/streamer/streamer_core.py:187-201 | after data frames the disk and the hash input are the concatenation of those frames |
| Streamer.RecognisedEofCompletesTheCopy | src/firecrest-streamer/src/streamer/streamer_core.py:180-186 | a recognised eof leaves target equal to source on a matching digest and no target on a mismatch; frames after it are ignored |
| Streamer.OwnEofIsStoredAsData | src/firecrest-streamer/src/streamer/streamer_core.py:135-139 | with the sender's own eof: stored after the file, or refused when it exceeds the limit, or a failure for an empty file |
| Streamer.OwnTransferNeverLeavesTheFile | src/firecrest-streamer/src/streamer/streamer_core.py:180-200 | after a transfer that is not cut, between the two ends as written, the target never equals the source |
| Streamer.CutTransfer | src/firecrest-streamer/src/streamer/streamer_core.py:187-203 | a transfer cut after any number of chunks leaves exactly those chunks, or is refused over the limit; the answer is a success exactly if the connection was closed cleanly |
| Streamer.FileIsLeftIff | src/firecrest-streamer/src/streamer/streamer_core.py:171-203 | for every cut of the sender's frames, and for none: the file is on disk exactly if every chunk but no eof has arrived and the limit allows it |
| Streamer.TransferRefusedIff | src/firecrest-streamer/src/streamer/streamer_core.py:187-197 | a transfer is refused exactly when the counted frames, an unrecognised eof included, times the chunk size exceed the limit |
| Streamer.RefusedExactlyOverTheLimit | src/firecrest-streamer/src/streamer/streamer_core.py:188-197 | the same from any point of a transfer, and a refusal leaves no file |
| Streamer.AcceptedFramesStayWithinTheLimit | src/firecrest-streamer/src/streamer/streamer_core.py:187-199 | for any peer, the accepted frames are a run of binary frames from the start, their number times the chunk size is within the limit, and what is on disk is exactly the concatenation of their payloads |
| Streamer.BytesStayWithinTheLimit | src/firecrest-streamer/src/streamer/streamer_server.py:88-90 | bytes on disk are within the limit for chunk-sized frames and within 5/4 of it under the server's maximum frame size |
| StreamerOutcomes.ExistingTargetIsKept | src/firecrest-streamer/src/streamer/streamer_core.py:168-210 | a target that exists is kept as it is for every peer, and the answer is a refusal with code 3003 |
| StreamerOutcomes.SucceedsIff | src/firecrest-streamer/src/streamer/streamer_core.py:168-203 | for any peer, limit and ending: success exactly if the target is new and either a clean close comes before anything else, or a readable init and then only data frames within the limit up to a clean close or a readable eof |
| StreamerOutcomes.DrainSucceeds | src/firecrest-streamer/src/streamer/streamer_core.py:180-203 | and the file is then exactly those data, or gone if the eof carries another digest |
| StreamerOutcomes.CodesClassifyFailures | src/firecrest-streamer/src/streamer/streamer_core.py:189-217 | a close code exactly on failure: 3003 for an existing target, 1009 over the limit, which alone removes the file, 1011 otherwise |
| StreamerOutcomes.InitNamesItsNumbers | src/firecrest-streamer/src/streamer/streamer_core.py:119-127 | the init object has the number of chunks before the size of the file, each under its name |
| StreamerOutcomes.InitAnnouncesTheFile | src/firecrest-streamer/src/streamer/streamer_core.py:115-127 | it announces as many chunks as are sent, and the size of the file |
| StreamerOutcomes.EofCarriesTheDigest | src/firecrest-streamer/src/streamer/streamer_core.py:136-139 | the eof object has its type and the digest |
| StreamerOutcomes.OwnEofIsLastAndUnrecognised | src/firecrest-streamer/src/streamer/streamer_core.py:136-180 | the eof is sent last with the digest of the whole file, and would not be recognised even as text, while its compact form would |
| BoundedRead.Execute | src/lib/ssh_clients/ssh_client.py:92-111 | output is passed on whole, or the limit error comes exactly when either stream has at least the limit |
| BoundedRead.ViewIsTheSlice | src/firecrest/filesystem/ops/commands/dd_command.py:26-46 | for every file, the limit error exactly when the two blocks reach the limit, never a truncated window; otherwise the window of the decoded blocks, which on ASCII blocks is the requested slice clipped at end of file |
| BoundedRead.WindowOfWindow | src/firecrest/filesystem/ops/commands/dd_command.py:45-46 | the window cut out of the two blocks is a window of the file |
| BoundedRead.ViewRejectsBadWindows | src/firecrest/filesystem/ops/router.py:318-334 | a request is rejected exactly for a negative offset, a size not positive or a size above the limit |
| BoundedRead.SmallViewsSucceed | src/firecrest/filesystem/ops/router.py:336-345 | twice the size below the limit always succeeds, for every file and offset |
| BoundedRead.ViewsTileTheFile | src/firecrest/filesystem/ops/router.py:336-345 | successive views of an ASCII file from any offset, joined, are the rest of the file |
| BoundedRead.ViewsAreWindowsIff | src/lib/ssh_clients/ssh_client.py:107-111 | for every file, all views of sizes that always succeed are the requested bytes, for every offset, if and only if the file is ASCII |
| BoundedRead.RepliesAreHonestIff | src/lib/ssh_clients/ssh_client.py:107-111 | for every file, every view of any accepted size that succeeds is the requested bytes if and only if the file is ASCII |
| BoundedRead.ViewsTileIff | src/firecrest/filesystem/ops/commands/dd_command.py:45-46 | for every text of any length, views of every size that always succeeds put the text together again if and only if it is ASCII |
| BoundedRead.MissingArguments | src/firecrest/filesystem/ops/commands/dd_command.py:26-33 | a missing size is the limit and a missing offset the start of the file |
| BoundedRead.WholeTextForAWindow | src/firecrest/filesystem/ops/commands/dd_command.py:45-46 | on any other text, asking for all bytes but the last brings the whole text |
| BoundedRead.MultiByteTextShiftsTheWindow | src/lib/ssh_clients/ssh_client.py:107-111 | the smallest instance: the first byte of a two-byte character brings both |
| Base64Copy.DecodeEncode | src/firecrest/filesystem/ops/commands/base64_command.py:24-35 | decoding inverts encoding (section 4 of RFC 4648) for all byte strings |
| Base64Copy.EncodedSymbol | src/firecrest/filesystem/ops/commands/base64_command.py:29-29 | as in section 4 of RFC 4648: each character is the table entry of its six bits of the file, or padding once all bits are shown |
| Base64Copy.UploadSucceedsIff | src/firecrest/filesystem/ops/router.py:667-684 | success exactly for a non-empty content within the limit, with the target then equal to it; over the limit nothing is touched |
| Base64Copy.DownloadSucceedsIff | src/firecrest/filesystem/ops/router.py:622-634 | the file, exactly for sizes up to `3 * ((limit - 1) / 4)`, else the command limit; the later size check is unreachable |
| Base64Copy.CopyRoundTrip | src/firecrest/filesystem/ops/router.py:622-684 | upload then download is the identity where both succeed, and the sizes where only the upload does |
| FloatCeiling.FloatCeilIsCeilDiv | src/lib/datatransfers/s3/s3_datatransfer.py:112-115 | rounding the quotient to nearest-even and taking the ceiling is the integer ceiling for every size up to `2^53` |
| FloatCeiling.OneByteBeyondIsShort | src/lib/datatransfers/s3/s3_datatransfer.py:112-115 | at `2^53 + 1` bytes in one-byte parts the last part is missing |
| FloatCeiling.CeilingsExactIff | src/lib/datatransfers/s3/s3_datatransfer.py:237-240 | the ceiling is right for all sizes up to a bound and all part sizes if and only if the bound is at most `2^53` |
| FloatRounding.QuotientRounds | src/lib/datatransfers/s3/s3_datatransfer.py:112-115 | for every size up to `2^53` and every part size there is a double the quotient rounds to, and its ceiling is the integer ceiling |
| FloatRounding.RoundedExists | src/lib/datatransfers/s3/s3_datatransfer.py:237-240 | every value from 0 to `2^53` has a nearest double, the even one in a tie |
| Multipart.PresignParts | src/lib/datatransfers/s3/s3_datatransfer.py:111-129 | the URLs are numbered from 1 to the integer ceiling of size over part size |
| Multipart.Uploader.ReadPart | docs/user_guide/file_transfer_dotnet/firecrest_base/Endpoints/EndpointFilesystemTransfer.cs:119-121 | the buffer holds the next bytes of the file, as many as the stream has ready, the buffer takes and the file has left |
| Multipart.Uploader.UploadPart | docs/user_guide/file_transfer_dotnet/firecrest_base/Endpoints/EndpointFilesystemTransfer.cs:117-129 | the file position moves even for a failed PUT, and not for a read that raises; the tag is recorded exactly for a stored part |
| Multipart.Uploader.UploadAll | docs/user_guide/file_transfer_dotnet/firecrest_base/Endpoints/EndpointFilesystemTransfer.cs:89-103 | for any pattern of reads and failures: recorded tags, stored parts and failed positions |
| Multipart.StoredPartsHold | docs/user_guide/file_transfer_dotnet/firecrest_base/Endpoints/EndpointFilesystemTransfer.cs:117-129 | for any pattern of failures and distinct URLs: a part's bytes are stored under its URL exactly if its PUT got through, with or without an ETag |
| Multipart.Uploader.CompletionList | docs/user_guide/file_transfer_dotnet/firecrest_base/Endpoints/EndpointFilesystemTransfer.cs:139-151 | a list exists exactly when all keys from 1 are present, and then lists each part once in order |
| Multipart.Upload | docs/user_guide/file_transfer_dotnet/firecrest_base/Endpoints/EndpointFilesystemTransfer.cs:70-112 | which of the outcomes it is: part size refused, URLs missing, parts failed, completion failed, or completed with every part listed once in order |
| Multipart.TagsOfAll | docs/user_guide/file_transfer_dotnet/firecrest_base/Endpoints/EndpointFilesystemTransfer.cs:127-128 | with no failed part the tag map has exactly the keys 1 to n, each with its part's tag |
| Multipart.PartSizes | docs/user_guide/file_transfer_dotnet/firecrest_base/Endpoints/EndpointFilesystemTransfer.cs:120-121 | with full reads no part is empty or larger than the part size |
| Multipart.TransferIsCompleteIff | docs/user_guide/file_transfer_dotnet/firecrest_base/Endpoints/EndpointFilesystemTransfer.cs:89-111 | with no failed part the stored parts, assembled by number, are the file if and only if the reads add up to its size |
| Multipart.FullReadsSuffice | docs/user_guide/file_transfer_dotnet/firecrest_base/Endpoints/EndpointFilesystemTransfer.cs:119-121 | reads that fill the buffer do add up, in as many parts as were presigned |
| Multipart.Transfer | docs/user_guide/file_transfer_dotnet/firecrest_base/Endpoints/EndpointFilesystemTransfer.cs:76-111 | server and client together: completed exactly when the part size fits, every part was stored and the completion succeeds, and with full reads the assembled object is then the file |
| JobMerge.MergeMeetsItsRule | src/lib/scheduler_clients/slurm/slurm_cli_client.py:196-206 | the ids are exactly the distinct ids seen, and each one's record is its last pending record if any, else its first |
| JobMerge.KeptIsUnique | src/lib/scheduler_clients/slurm/slurm_cli_client.py:203-204 | that rule determines one record for each id |
| JobMerge.FirstSeenOrder | src/lib/scheduler_clients/slurm/slurm_cli_client.py:200-206 | ids come out in the order in which they were first seen |
| JobMerge.JobTable.Offer | src/lib/scheduler_clients/slurm/slurm_cli_client.py:203-204 | one record offered: the dictionary is the merge of the records so far and this one |
| JobMerge.JobTable.Values | src/lib/scheduler_clients/slurm/slurm_cli_client.py:206-206 | the dictionary's values are the merged records in order |
| JobMerge.CliGetJobs | src/lib/scheduler_clients/slurm/slurm_cli_client.py:195-206 | the first failed command is the error, otherwise the merge of all rows in order |
| JobMerge.CliGetJob | src/lib/scheduler_clients/slurm/slurm_cli_client.py:111-124 | the same, with none for no rows at all |
| JobMerge.CliJobsAreTheRows | src/lib/scheduler_clients/slurm/slurm_cli_client.py:195-206 | it fails exactly if some command failed; otherwise an id is listed exactly if some row has it, and each listed job is one of the rows |
| JobMerge.RestMerge | src/lib/scheduler_clients/slurm/slurm_rest_client.py:273-299 | the REST loop is the same merge of the filtered rows with limits scaled |
| JobMerge.RestGetJobs | src/lib/scheduler_clients/slurm/slurm_rest_client.py:276-299 | the merge under the filter of `get_jobs` |
| JobMerge.RestGetJob | src/lib/scheduler_clients/slurm/slurm_rest_client.py:196-221 | the merge under the filter of `get_job` as it parses, none for no rows |
| JobMerge.RestJobsAreThoseAskedFor | src/lib/scheduler_clients/slurm/slurm_rest_client.py:276-299 | on the fields of the raw records: it fails exactly if some reply failed; otherwise an id is listed exactly if some record with it has the owner and the name asked for, and each listed job is such a record with its limit in seconds |
| JobMerge.RestJobIsTheOneAskedFor | src/lib/scheduler_clients/slurm/slurm_rest_client.py:196-221 | the same for `get_job`, with the records on which it raises |
| JobMerge.MergeScalesOnce | src/lib/scheduler_clients/slurm/slurm_rest_client.py:216-220 | scaling each record before the merge is scaling each merged record exactly once |
| JobMerge.FiltersDifferIff | src/lib/scheduler_clients/slurm/slurm_rest_client.py:203-213 | for exactly which records the filter of `get_job` and the filter of `get_jobs` disagree |
| SlurmTime.StagesAgree | src/lib/scheduler_clients/slurm/cli_commands/sacct_job_info_command.py:41-56 | wherever two of the three parser stages accept the same text they give the same seconds |
| SlurmTime.ParsePrint | src/lib/scheduler_clients/slurm/cli_commands/sacct_job_info_command.py:13-56 | parsing inverts printing for every number of seconds in the raw, M:SS, H:MM:SS and D-HH:MM:SS forms |
| SlurmTime.ParseMS | src/lib/scheduler_clients/slurm/cli_commands/sacct_job_info_command.py:30-36 | any number of minutes, leading zeros included |
| SlurmTime.ParseHMS | src/lib/scheduler_clients/slurm/cli_commands/sacct_job_info_command.py:22-28 | any text of digits for hours, leading zeros included |
| SlurmTime.ParseDHMS | src/lib/scheduler_clients/slurm/cli_commands/sacct_job_info_command.py:15-20 | any text of digits for days, leading zeros included |
| SlurmTime.LimitsAgree | src/lib/scheduler_clients/slurm/cli_commands/sacct_job_info_command.py:132-134 | sacct's minute count and squeue's duration text for one time limit give the same seconds |
| SlurmTime.ClockReads | src/lib/scheduler_clients/slurm/cli_commands/sacct_job_info_command.py:45-49 | a clock time with one or two digits in each place is its hours, minutes and seconds |
| SlurmTime.AcceptedIff | src/lib/scheduler_clients/slurm/cli_commands/sacct_job_info_command.py:13-56 | exactly the integers, the clock times and the three printed forms give a number of seconds, so minutes or seconds from 60 and hours from 24 after days do not |
| SlurmRows.ParseOutput | src/lib/scheduler_clients/slurm/cli_commands/sacct_job_info_command.py:81-104 | the loop is the row-by-row reading, with the invalid-id, failure and empty cases |
| SlurmRows.JobReadsBack | src/lib/scheduler_clients/slurm/cli_commands/sacct_job_info_command.py:75-139 | a job printed under the twenty names of the format list is read back field by field: exit code, priority, durations in any form, `Unknown` times |
| SlurmRows.StepReadsBack | src/lib/scheduler_clients/slurm/cli_commands/sacct_job_info_command.py:75-161 | a step printed under the same names is read back field by field, whatever the columns hold that a step does not report |
| SlurmRows.ReadingFailsIff | src/lib/scheduler_clients/slurm/cli_commands/sacct_job_info_command.py:91-161 | for any output: reading fails exactly if some full row is malformed, has two dots in its id, or is a step without a job row before it |
| SlurmRows.ReportRoundTrip | src/lib/scheduler_clients/slurm/cli_commands/sacct_job_info_command.py:90-104 | a report printed from jobs and steps gives every job once, in order of first appearance, with the fields of its last row and exactly the steps since, in order |
| SlurmRows.ReadableRoundTrip | src/lib/scheduler_clients/slurm/cli_commands/sacct_job_info_command.py:90-104 | the same for rows that hold any text with the meaning of their job or step |
| SlurmRows.ReadsEveryLine | src/lib/scheduler_clients/slurm/cli_commands/sacct_job_info_command.py:91-100 | the same for every prefix of the report, line by line |
| SlurmRows.StepsAreConserved | src/lib/scheduler_clients/slurm/cli_commands/sacct_job_info_command.py:96-98 | without repeated job rows, the steps of all jobs add up to the step rows of the report |
| SlurmRows.OtherWidthsDoNotMatter | src/lib/scheduler_clients/slurm/cli_commands/sacct_job_info_command.py:92-94 | dropping the rows of any other width from any output changes nothing |
| LsListing.ParseFolder | src/firecrest/filesystem/ops/commands/ls_base_command.py:98-136 | the loop over lines is the line-by-line reading, errors of the tokeniser included |
| LsListing.ParseOutput | src/firecrest/filesystem/ops/commands/ls_base_command.py:79-96 | the loop over folders is the reading of the split text, under root-relative folder names |
| LsListing.ParseSingle | src/firecrest/filesystem/ops/commands/ls_base_command.py:94-96 | without recursion only the first entry, or none |
| LsReaders.MatchEntryIff | src/firecrest/filesystem/ops/commands/ls_base_command.py:104-110 | for any line: the columns and the file name found are the groups of a match of the expression, the one with the longest gap before the name |
| LsReaders.NoEntryIff | src/firecrest/filesystem/ops/commands/ls_base_command.py:104-110 | and none are found exactly if every match has nothing but white space for a name |
| LsReaders.SingleQuotesKeep | src/firecrest/filesystem/ops/commands/ls_base_command.py:113-113 | single quotes keep everything up to the next one, and without it are an error |
| LsReaders.OpenDoubleQuotesFail | src/firecrest/filesystem/ops/commands/ls_base_command.py:113-113 | double quotes that are never closed are an error |
| LsReaders.BackslashKeeps | src/firecrest/filesystem/ops/commands/ls_base_command.py:113-113 | outside quotes a backslash keeps the next character, and at the end is an error |
| LsReaders.LinesReadBack | src/firecrest/filesystem/ops/commands/ls_base_command.py:108-108 | text written as lines with any of the breaks `splitlines` knows is split into those lines |
| LsPrinter.LineReads | src/firecrest/filesystem/ops/commands/ls_base_command.py:104-135 | every entry whose owners' names have no blank parses to exactly that file, columns, name and link target, whatever ASCII the names hold, control characters shown as their codes, and a device's entry to none |
| LsPrinter.NodeReadsIff | src/firecrest/filesystem/ops/commands/ls_base_command.py:104-135 | for every entry: its line gives exactly its file if and only if it is no device, its owners' names have no blank, and its name and link target no control character |
| LsPrinter.DeviceIsNoEntry | src/firecrest/filesystem/ops/commands/ls_base_command.py:104-107 | the pattern never matches a device's line, whose size column is a major and a minor number |
| LsPrinter.EntryIsNoHeader | src/firecrest/filesystem/ops/commands/ls_base_command.py:82-82 | no entry line can match the folder-header split |
| LsRoundTrip.SplitUndoesPrinting | src/firecrest/filesystem/ops/commands/ls_base_command.py:82-89 | cutting a printed listing at its headers gives the folders that were printed, with their contents |
| LsRoundTrip.FolderNameIsRel | src/firecrest/filesystem/ops/commands/ls_base_command.py:85-88 | the name given to a folder is the escaped way to it from the root folder, after any slashes the root has too many |
| LsRoundTrip.TreeReads | src/firecrest/filesystem/ops/commands/ls_base_command.py:79-136 | for every directory tree of ASCII names and every path to list: what its entry lines give, once each, in listing order, under the names of their folders; headers, totals and blank lines never interfere |
| LsRoundTrip.TreeShowsItsFiles | src/firecrest/filesystem/ops/commands/ls_base_command.py:79-136 | where no owner's name has a blank: exactly the entries that are no devices, with their columns, names and link targets |
| LsRoundTrip.TreeRoundTripIff | src/firecrest/filesystem/ops/commands/ls_base_command.py:79-136 | the listing reads back exactly, names included, if and only if every entry is plain, no folder above an entry has a quote, backslash, colon or control character in its name, and the listed path is not two or more slashes with an entry below a subfolder |
| LsRoundTrip.PlainRoundTrip | src/firecrest/filesystem/ops/commands/ls_base_command.py:91-92 | a listing without headers reads back, with or without its total line, exactly if and only if every entry is plain |
| FsAdmission.AcceptsIsContainment | src/firecrest/dependencies.py:129-133 | the string test accepts exactly when the mount's components are a prefix of the path's with the same kind of root, or the mount is a bare root |
| FsAdmission.NoParentSurvives | src/firecrest/dependencies.py:129-129 | no `..` is left in the components of an absolute path |
| FsAdmission.ParentCancelsChild | src/firecrest/dependencies.py:129-129 | entering a directory and leaving it by `..` changes nothing, wherever it stands |
| FsAdmission.EmptyPartsVanish | src/firecrest/dependencies.py:129-129 | empty components and single dots change nothing, wherever they stand |
| FsAdmission.RootIsItsOwnParent | src/firecrest/dependencies.py:129-129 | a parent step at the root of an absolute path changes nothing |
| FsAdmission.NormPathIsIdempotent | src/firecrest/config.py:381-385 | normalising a normalised path changes nothing |
| FsAdmission.TwoSlashesLeaveTheMount | src/firecrest/dependencies.py:129-133 | a path with exactly two leading slashes is under an ordinary mount only if that is the root |
| FsAdmission.AdmissionIsFirstContainingMount | src/firecrest/dependencies.py:123-154 | admission, the chosen mount and the consulted result, all said of components: the first containing mount and its own health entry, or the mount alone where file systems are not probed |
| FsAdmission.ConsultsFirstContaining | src/firecrest/status/health_check/health_checker_cluster.py:88-111 | with results in configuration order among other services' results, the entry consulted is that of the first containing mount |
| FsAdmission.NestedAfterParentIsNeverChosen | src/firecrest/dependencies.py:130-133 | a mount inside an earlier one is never chosen |
| NodeRanges.ParseNodelist | src/lib/scheduler_clients/pbs/models.py:138-155 | the nested loops append the expansion of every chunk's host, in order |
| NodeRanges.NamesDecode | src/lib/scheduler_clients/pbs/models.py:149-151 | a range from a to b gives max(0, b - a + 1) pairwise distinct names whose suffixes read back as a to b in order |
| NodeRanges.NamesKeepTheStart | src/lib/scheduler_clients/pbs/models.py:150-151 | padded to the start's width: the first name ends in the start as written, and the last in the end if it is as wide |
| NodeRanges.RangeReadsBack | src/lib/scheduler_clients/pbs/models.py:147-149 | the pattern reads a printed range back, whatever follows it |
| NodeRanges.MatchRangeIff | src/lib/scheduler_clients/pbs/models.py:147-153 | for any host: it is expanded exactly if it starts with a printed range, as that range, and otherwise kept as it is |
| NodeRanges.NodelistRoundTrip | src/lib/scheduler_clients/pbs/models.py:145-155 | a printed list with slots parses to the nodes it stands for, entry by entry in order |
| NodeRanges.NodesCanBeCutOut | src/lib/scheduler_clients/pbs/models.py:145-155 | cutting the result at its commas gives all those nodes, as many as the counts add up to |
| NodeRanges.ParseNodesRoundTrip | docs/use_cases/open-ondemand/firecrest.rb:704-721 | the adapter inverts the printer of compressed node lists: names, single suffixes and ranges |
| NodeRanges.ExpandersAgreeIff | docs/use_cases/open-ondemand/firecrest.rb:708-712 | on one range the two expanders agree if and only if the end is no wider than the start or the range is empty |
| IdOutput.ParseOutput | src/firecrest/status/commands/id_command.py:28-54 | index expressions and the group loop, with Python's negative indices, compute the parsed identity |
| IdOutput.IdRoundTrip | src/firecrest/status/commands/id_command.py:32-54 | a printed line with any comma-free suffix parses back to user, group and groups if all of them have names and there is a group |
| IdOutput.IdRoundTripIff | src/firecrest/status/commands/id_command.py:32-54 | before text without parentheses and commas, if and only if all of them have names and there is a group |
| IdOutput.GroupsReadBack | src/firecrest/status/commands/id_command.py:44-52 | the group list reads back if, and before such text only if, every group has a name |
| IdOutput.BareTextReads | src/firecrest/status/commands/id_command.py:46-50 | a group without a name is read as its number without the last digit, twice |
| Sbatch.QuoteReads | src/lib/scheduler_clients/slurm/cli_commands/sbatch_command.py:31-33 | a shell reads quoted text verbatim into the current word, whatever it contains |
| Sbatch.GetCommand | src/lib/scheduler_clients/slurm/cli_commands/sbatch_command.py:26-53 | a shell reads the printed line as exactly the intended arguments, which read as sbatch reads its options give back every field of the description |
| Sbatch.ArgumentsDescribe | src/lib/scheduler_clients/slurm/cli_commands/sbatch_command.py:26-53 | looking up each option name in the words before `--` gives its field, once if it is set and not at all if it is not; the script path is the only word after `--` |
| Sbatch.EnvironmentIsRead | src/lib/scheduler_clients/slurm/cli_commands/sbatch_command.py:28-31 | the value of the environment option, cut at its commas, is ALL and then each variable with its value, in order, where these have no comma |
| Sbatch.AssignmentIsRead | src/lib/scheduler_clients/slurm/cli_commands/sbatch_command.py:28-30 | a key without an equals sign is what stands before the first one, and the value is everything after it |

## Assumptions

- Code between two `await`s runs without interruption, and prune runs on the event loop.
  `SplitPruneLosesAnInsert` shows that the second is needed.
- The timing result assumes what its module header lists: a monotone clock, one command right
  after each checkout, timeouts that fire on time.
- SHA-256 is any function of the bytes fed so far. The JSON reader is known only to undo the
  sender's own header.
- The text decoder of `execute` is a parameter: known to map ASCII bytes one for one, or, where
  other text matters, to undo UTF-8 encoding and never to decode some bytes to nothing.
- GNU `ls` escapes colons too in folder headers, and names an entry below a path of slashes only
  without a further slash.
- GNU `ls` prints control characters in quoted names as a backslash and a letter or three octal
  digits. GNU `id` prints a number without a name bare, and no group list when there is no group.
- `sacct` prints an absent exit code, integer or duration as an empty column and an absent time as
  `Unknown`.
- `InConfigurationOrder` says that there is one file system result per mount, in order, unless file
  systems are not probed at all.

## Left out

- SSH, HTTP, websocket and S3 traffic: only outcomes are modelled (frames, bytes, success, failure, closed).
- Connections, locks and tasks of the pool are positions in tables, so Python object identity is an index.
- Cancellation of a task while it opens a connection is one of the open failures.
- Validation of job dictionaries by the pydantic models: the merge starts from validated records.
- Unicode digits and white space: `\d`, `\s` and `int` are modelled on ASCII (and Latin-1 spaces in listings).
- NodeRanges.ParseNodesRoundTrip: Ruby's line anchors are not modelled, so a node list with a line feed inside brackets is outside the model.
- LsPrinter.LineReads: names are ASCII text; what `ls` prints for other characters depends on the locale.
- Sbatch.GetCommand: the environment is a dictionary, as `get_command` assumes; the list form of the field raises there.
- FsAdmission.AdmissionIsFirstContainingMount: the path of the request is a parameter; how it is found in the query or the body is not modelled.
- SlurmRows.ReportRoundTrip: a report lists a step after its job, as `sacct` does; for anything else `ReadingFailsIff` says when reading fails.
- BoundedRead.ViewIsTheSlice: `dd` exits with status 0; the mapping of other statuses to HTTP errors is not modelled.
- The proxy tunnel, key providers, authentication, configuration loading, tracing and middleware.
- Job scripts, reservation dates, time windows and node-state tables: templates, library behaviour or finite tables.
- Quoting of paths in the shell commands of the file operations, other than `sbatch`.
