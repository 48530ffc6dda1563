# obs-kmsgrab framebuffer hand-over, modelled in Dafny

obs-kmsgrab captures the screen by importing the kernel's scanout
framebuffers as DMA-BUF textures. Exporting those buffers needs privilege,
so the unprivileged OBS plugin forks a small helper (`linux-kmsgrab-send`).
The helper walks the DRM planes, builds a fixed-layout response of at most
16 framebuffer records, and passes the buffers' descriptors back over a
unix socket as `SCM_RIGHTS` ancillary data. The plugin checks the message,
copies the descriptors, reaps the helper, and later opens one framebuffer
by id, reports its size, and closes the descriptors.

The project models that exchange as pure functions over immutable
datatypes:

- `wrappers.dfy`: `Option`.
- `protocol.dfy` (module `Protocol`): the wire records of `src/drmsend.h`,
  their constants, and the `size_t` arithmetic of `CMSG_LEN`.
- `dedup.dfy` (module `Dedup`): first occurrences in a plane list. These
  drive both of the helper's de-duplication loops.
- `drmsend.dfy` (module `DrmSend`): the helper. It covers
  `responseAppendFramebuffer`, `readDrmData` as a fold over an abstract plane
  list, and the observable part of `responseSend`.
- `receiver.dfy` (module `Receiver`): the plugin's
  `dmabuf_source_receive_framebuffers`. It covers the socket and helper
  paths, the checks and copy after `recvmsg`, the ten-poll reap, and the
  whole call sequence over abstract outcomes of the system calls.
- `source.dfy` (module `Source`): the capture source's session. It covers
  `dmabuf_source_open` with its lookup and import parameters, `close`,
  `close_fds`, `update`, and the width and height getters.
- `handshake.dfy` (module `Handshake`): properties that join the two sides,
  where what the helper sends meets what the plugin accepts.

Kernel and library calls are parameters:

- `drmPrimeHandleToFD` is an `Exporter` function from handle to
  `Option<fd>`.
- The plane list is a sequence of `PlaneEntry` values.
- The socket, fork, select and accept results are booleans or small outcome
  types in `Environment`.
- One `recvmsg` is a `Delivery`: its return value, the response bytes, the
  `cmsg_len` the code reads back afterwards, and the installed descriptors.
- `waitpid` answers are a function from poll number to `PollOutcome`.
- Texture creation is a predicate over `ImportParams`.

The modelled C array accesses that can leave their array are explicit
outcomes rather than preconditions:
- `Access.OutOfBounds` covers the source module's lookup, import and close loops.
- `ReceiveOutcome.CopyOverrun` covers the receiver's descriptor copy.
- `Fetch.summaryOverrun` covers the summary loop after a receive, which
  reads every received record and table slot without comparing the record
  count with 16.

The model follows the code, also where it departs from what the record
layout and the code's own checks suggest was meant:

- The duplicate-id check never fires in practice. The append step never
  writes a record's `fb_id`, so every stored id stays 0 from the zeroed
  start state.
- Descriptor de-duplication happens only among the planes of one
  framebuffer, never across records.
- A plane's `fd_indexes` entry is the old `num_fds` plus the position of the
  first earlier plane with the same descriptor. It is not a running count of
  unique descriptors. So "every index is below `num_fds`" holds only when
  the first occurrences form a prefix of the planes.
- Running out of capacity returns -1, but `readDrmData` ignores that status
  and keeps walking. Nothing is reported to the plugin.
- A helper that records no framebuffer sends zero descriptors. The kernel then
  passes no control header, so the plugin reads back the 320-byte buffer size
  it stored itself. The count check compares that with `CMSG_LEN(0)` and
  rejects the message: finding nothing is a failed receive.
- A rejected message's descriptors are neither stored nor closed. After a tag
  or count mismatch, the descriptors the kernel installed stay open, and so
  do any beyond `num_fds`.
- An update closes the table's descriptors, then reopens from the same table.
  The texture is therefore imported from descriptors that were just closed.
  `dmabuf_source_create` runs an update right after the receive, so this
  already happens on the first open.
- The update's framebuffer setting is a 64-bit integer, and open takes a
  `uint32_t` id. Only the setting's low 32 bits select the record.
- The header declares `modifiers[4]`, but both sides read and write one
  value. A record therefore carries one 64-bit modifier, and
  `ResponseSize` is computed for that layout.

## Model

| member | source | states |
|---|---|---|
| Protocol.CmsgLenStrictlyIncreasing | src/dmabuf.c:239-240 | The control length of a descriptor block grows strictly with the payload, as long as the payload does not wrap `size_t`. |
| Protocol.FdCountMatchUnique | src/dmabuf.c:239-247 | For any 32-bit `num_fds`, including negative ones, the declared control length equals that of an `n`-descriptor block exactly when `num_fds == n`. |
| Dedup.FirstOccurrence | src/drmsend.c:153-157 | The scan `j < i && fds[i] != fds[j]` stops at the first position holding the same value: `j <= i`, the values are equal, and every earlier position differs. |
| Dedup.IsFirstIffNew | src/drmsend.c:114-123 | A plane is the first holder of its value exactly when the value does not occur among the earlier planes. This is the condition `j == i` under which the helper exports or stores. |
| Dedup.CountFirstsIsDistinct | src/drmsend.c:151-164 | The number of planes that find no earlier equal descriptor is the number of distinct descriptors, which is what `num_fds` grows by. |
| Dedup.FirstsBelowCountIffPrefix | src/drmsend.c:155-164 | Every plane's first-match position is below the number of distinct descriptors exactly when the first occurrences are the leading positions. |
| Dedup.DistinctValuesCount | src/drmsend.c:151-164 | Without repeated values, the distinct-value count equals the number of planes. |
| DrmSend.PlaneCount | src/drmsend.c:112 | The planes visited are the leading nonzero handles, at most four: all of them are nonzero, and the next one, if any, is zero. |
| DrmSend.Resolve | src/drmsend.c:110-130 | The plane loop resolves every visited plane exactly when every handle exports. Each plane's descriptor is its handle's export, and a repeated handle reuses the earlier descriptor. Each distinct handle is passed to the kernel exactly once. On failure it names the first handle that failed; that handle is new and every earlier one exported. |
| DrmSend.AppendFramebuffer | src/drmsend.c:91-168 | A known `fb_id` returns 0 and changes nothing; it is checked first. Otherwise a full response returns -1 and changes nothing. Every -1 leaves the counts, the descriptor table and all other records unchanged. The status is 0 or -1. The tag and every stored `fb_id` are never written, and the sender's invariant is kept. |
| DrmSend.AppendStatus | src/drmsend.c:91-168 | The status is 0 exactly for a duplicate or a successful append. The record count grows by one exactly on success, meaning a new id, room left, at least one plane and every export working. |
| DrmSend.Commit | src/drmsend.c:146-166 | The success path keeps the sender's invariant, adds exactly one record, and leaves the tag and stored ids unchanged. |
| DrmSend.CommitRecord | src/drmsend.c:134-164 | The new record takes its width, height, fourcc and modifier from the framebuffer, and pitches and offsets for exactly its planes. Pitch and offset slots past the planes keep whatever the slot held before, including a failed attempt's writes. Its plane count is the number of descriptors. `num_fds` grows by the number of distinct descriptors. Every other record is unchanged. |
| DrmSend.CommitTable | src/drmsend.c:151-164 | Plane `i` indexes the old `num_fds` plus its first match. Two planes share an index exactly when their descriptors are equal. The slot a plane indexes holds that plane's descriptor. Index slots past the planes keep their old values, and table slots below the old `num_fds` are unchanged. |
| DrmSend.SharedIndexIffEqual | src/drmsend.c:153-157 | Two planes have the same first match exactly when their descriptors are equal. |
| DrmSend.AppendSuccessRecord | src/drmsend.c:108-166 | A successful append returns 0. It adds one record with the framebuffer's size, format, modifier, pitches and offsets, over as many planes as there are leading nonzero handles. Pitch and offset slots past the planes keep the slot's earlier values. `num_fds` grows by the number of distinct descriptors, and earlier records are untouched. The handles passed to the kernel are exactly the distinct visited handles. |
| DrmSend.AppendSuccessTable | src/drmsend.c:151-164 | In a successful append, each plane's descriptor is its handle's export, and plane `i` indexes the old `num_fds` plus its first match. Equal descriptors share an index and different ones do not. The indexed slot holds the plane's descriptor. Index slots past the planes keep their old values, and earlier table slots are unchanged. |
| DrmSend.AppendIndexesInTableIffPrefix | src/drmsend.c:155-164 | After a successful append, all of the new record's indexes lie below the new `num_fds` exactly when the planes' first occurrences form a prefix. |
| DrmSend.DedupIndexEscapesTable | src/drmsend.c:155-164 | Handles [7, 7, 8] from the zeroed start give indexes [0, 0, 2] and `num_fds == 2`. Slot 0 holds the first buffer's descriptor and slot 2 the third's. Slot 1 keeps the 0 of the zeroed start. |
| DrmSend.ReadPlanes | src/drmsend.c:178-200 | The plane walk keeps the sender's invariant. It never lowers either count and never writes the tag or a stored id. |
| DrmSend.VisitSkipsOrAppends | src/drmsend.c:179-197 | An unreadable plane, a plane with `fb_id` 0, or one whose framebuffer query fails leaves the state exactly as it was. Any other plane is one append of its framebuffer, whose status is dropped. |
| DrmSend.ReadPlanesSkipsAll | src/drmsend.c:178-200 | A walk over planes that are all skipped leaves the response and the table exactly as they were. |
| DrmSend.ReadDrmData | src/drmsend.c:170-203 | When the plane list cannot be read, nothing changes. Otherwise the walk's invariant holds, and stored ids are never written. |
| DrmSend.ReadSinglePlane | src/drmsend.c:186-197 | A plane with a nonzero id whose framebuffer can be queried amounts to exactly one append. |
| DrmSend.ReadPlanesSplit | src/drmsend.c:178-200 | The walk never stops early: walking `a + b` is walking `b` from wherever walking `a` ended, whatever statuses the appends returned. |
| DrmSend.DuplicateIdNotSkipped | src/drmsend.c:93-98 | With stored ids all zero, two planes showing the same nonzero framebuffer add two records. |
| DrmSend.ResponseSend | src/drmsend.c:32-87 | It returns 1 exactly when the name is shorter than `sun_path` and the connect succeeds; 1 is returned even when `sendmsg` fails. What is sent is the response with the tag stamped, plus exactly the first `num_fds` table entries in order. The control length is `CMSG_LEN(4 * num_fds)`. |
| DrmSend.DedupGapSendsDescriptorZero | src/drmsend.c:63-73 | For handles [7, 7, 8], the send passes the table entries [107, 0]: the helper hands over its own descriptor 0 in place of the third buffer, which it never sends. |
| Receiver.SocketPath | src/dmabuf.c:79-88 | The path is refused exactly when the module path's length plus 22 plus 1 reaches 108. Otherwise it is the module path followed by `/obs-kmsgrab-send.sock`, and its length plus the terminator fits. |
| Receiver.DirPrefixLen | src/dmabuf.c:97-103 | The prefix length ends just after the last '/', or is 0 when there is no '/'. No '/' follows it. |
| Receiver.HelperPathSibling | src/dmabuf.c:96-108 | The helper path is the plugin path's text up to and including its last '/', followed by `linux-kmsgrab-send`. |
| Receiver.HelperPathBareName | src/dmabuf.c:98-99 | A plugin path with no '/' gives the bare helper name. |
| Receiver.HelperPathIdempotent | src/dmabuf.c:96-108 | Deriving the helper path from the helper path gives the same path: the directory is kept. |
| Receiver.Receive | src/dmabuf.c:198-255 | `retval` becomes 1 exactly when something was received, the tag matches and the control length matches `num_fds`. A failure names the first failed check, in source order. The received bytes replace the response whenever `recvd > 0`. The copy succeeds exactly when `0 <= num_fds <= 16` and at least that many descriptors arrived. It then fills the first `num_fds` slots in order and keeps the rest. Otherwise the copy is not honoured. A count above 16 or below 0 runs past the table, and a count above the number delivered leaves the slots past the delivered descriptors indeterminate. Only the stored response is known afterwards. A rejection leaves the descriptor slots as they were. |
| Receiver.ReceiveCountsAgree | src/dmabuf.c:208-252 | Assume the kernel leaves the header length of the descriptors it installed, or leaves the stored buffer size of 320 when none travel. Then the count check passes exactly when `num_fds` is the number delivered. The exception is that with none delivered, it passes only for 76. The copy overruns exactly when the check passes with more than 16 delivered, or with 76 and none delivered. |
| Receiver.NoDescriptorsRejected | src/dmabuf.c:239-247 | A message declaring 0 descriptors, with none delivered, is rejected by the count check. Its response is stored and the descriptor slots are unchanged. |
| Receiver.AcceptedRecordCountUnbounded | src/dmabuf.c:232-267 | The checks never bound the record count. A consistent one-descriptor message declaring more than 16 records is accepted and stored as it came, and the summary then reads past the 16 records. |
| Receiver.Reap | src/dmabuf.c:273-300 | The loop polls between 1 and 10 times. It stops at the first poll that shows an exit or fails with ECHILD, and `exited` is set exactly when such a poll is among the first ten. A nonzero exit status is logged, and only then. |
| Receiver.ReceiveFramebuffers | src/dmabuf.c:57-309 | `retval` is 1 exactly when every step up to accept succeeds and the receive passes its checks. The list changes only when the call reaches `recvmsg`, and it is undefined after a copy that was not honoured. The summary loop reads past the 16 records and table slots exactly when `retval` is 1 and the received record count exceeds 16. The helper is started exactly when every step before fork succeeds, with the helper path, card and socket path as arguments. A started helper is always reaped, and the reap is the ten-poll decision over the `waitpid` answers: the same poll count, exit decision and logged status that Reap states. |
| Source.NewSession | src/dmabuf.c:396-403 | A new source has no active framebuffer. |
| Source.ScanFrom | src/dmabuf.c:331-339 | The lookup ends at the first record carrying the id, or at `num_framebuffers` when none among them does. It reads out of bounds only when the count exceeds 16 and no record matches. |
| Source.ImportParamsOf | src/dmabuf.c:343-367 | The import reads all four planes' descriptors through `fd_indexes` and repeats the record's single modifier four times. Size, format, plane count, pitches and offsets are the record's. It stays in bounds exactly when all four indexes do. |
| Source.Open | src/dmabuf.c:326-377 | Open keeps the list and leaves the session valid. An index it activates is one of the received records, or record 0 when the record count is negative. |
| Source.NegativeCountOpensRecordZero | src/dmabuf.c:331-339 | With a negative record count the lookup stops at index 0, which differs from the count. Record 0 is then imported, and activated when its texture is created, whatever its id. |
| Source.OpenSelectsFirstMatch | src/dmabuf.c:329-376 | For in-range counts and indexes: the first record carrying the id becomes active exactly when its texture is created. A failed creation leaves the session as it was, and so does no match. |
| Source.ZeroIdsOpenFirstRecord | src/dmabuf.c:331-339 | With the all-zero ids the helper sends, id 0 opens record 0 when its texture is created. Any other id opens nothing. |
| Source.Close | src/dmabuf.c:311-315 | Close resets the active index to -1 and keeps the list. |
| Source.CloseFrom | src/dmabuf.c:319-323 | From slot `i`, the loop closes the positive entries of `fb_fds[i..num_framebuffers)` in order. It reads out of bounds exactly when the count exceeds 16. |
| Source.CloseFds | src/dmabuf.c:317-324 | The descriptors closed are the positive entries among the first `num_framebuffers` slots, in order, rather than the first `num_fds`. It reads out of bounds exactly when the count exceeds 16. |
| Source.CloseFdsLeaksExtraDescriptor | src/dmabuf.c:319 | With one record and two received descriptors, only the first is closed. |
| Source.Update | src/dmabuf.c:379-389 | An update closes exactly what CloseFds names and keeps the list. It then reopens with the setting reduced to its low 32 bits, as the `uint32_t` parameter receives it, and leaves the session valid. |
| Source.UpdateTruncatesSetting | src/dmabuf.c:388 | Settings that differ by 2^32 select the same framebuffer. A setting and its low 32 bits give the same update. |
| Source.WideSettingOpensRecordZero | src/dmabuf.c:388 | With the all-zero ids the helper sends, setting 2^32 opens record 0 when its texture is created. Setting -1 looks up 0xFFFFFFFF and opens nothing. |
| Source.UpdateImportsClosed | src/dmabuf.c:384-388 | Every positive descriptor that the activated record imports through an index below the record count is one the same update has just closed. |
| Source.UpdateTwiceClosesTwice | src/dmabuf.c:379-389 | A second update closes the very descriptors the first one closed, because the table is never cleared. |
| Source.Width | src/dmabuf.c:579-585 | The width is a `uint32_t`, and it is 0 when nothing is active. |
| Source.Height | src/dmabuf.c:587-593 | The height is a `uint32_t`, and it is 0 when nothing is active. |
| Source.SizeFollowsSession | src/dmabuf.c:579-593 | After Close the size is 0×0. After an Open that activated a record, the size is that record's width and height, and its texture was created. |
| Handshake.Deliver | src/dmabuf.c:208-218 | A complete delivery of what was sent carries the response and the renamed descriptors in order. It keeps the sender's control length when descriptors travel. With none, it has the receiver's stored buffer size, since no header arrives. |
| Handshake.SentResponsePassesChecks | src/dmabuf.c:232-252 | A message from the helper passes the tag and count checks exactly when it carries a descriptor. One with none is rejected by the count check. The response arrives with the tag stamped. The copy succeeds exactly when 1 to 16 descriptors were sent, and then holds the helper's table in order. With more than 16 it overruns. |
| Handshake.NothingCapturedIsRejected | src/dmabuf.c:239-247 | When the plane walk records no framebuffer, the helper's message is rejected by the count check and `retval` is 0. |
| Handshake.FourDistinctBuffersAddFour | src/drmsend.c:151-164 | A framebuffer of four distinct buffers adds four descriptors. |
| Handshake.SenderCanOverrunReceiver | src/dmabuf.c:251-252 | Start from four records holding 16 descriptors. Appending a fifth framebuffer with four distinct buffers makes 20, which the helper's 64-slot table allows, and the plugin's 16-slot copy overruns. |
| Handshake.CommitPlanesIndexDescriptors | src/drmsend.c:151-164 | On the success path with prefix-closed first occurrences, every plane indexes a slot among the new descriptors that holds its descriptor. Index slots past the planes are unchanged. |
| Handshake.AppendedPlanesIndexExports | src/drmsend.c:151-164 | After a successful append with prefix-closed first occurrences, every plane indexes a slot among the new descriptors holding its handle's export. |
| Handshake.ImportThroughTable | src/dmabuf.c:351-357 | A record received with 1 to 16 descriptors, and all four indexes inside the table, imports the receiver's number for the helper's descriptor through every index below `num_fds`. |
| Handshake.ImportReadsExportedDescriptors | src/dmabuf.c:351-357 | Take one appended record, received with at most 16 descriptors and prefix-closed first occurrences, whose slot's index entries past its planes lie in the 16-slot table. The import's descriptor for every plane is the receiver's number for that plane's exported buffer. |
| Handshake.DedupGapImportsEmptySlot | src/dmabuf.c:351-357 | For handles [7, 7, 8], plane 2 imports slot 2, which the two delivered descriptors never fill. It reads the receiver's initial -1 instead of the third buffer. |
| Handshake.SocketPathPassesSenderGuard | src/drmsend.c:38-42 | Every socket path the plugin builds passes the helper's own length guard. |
| Handshake.SharedBufferRecordedOnce | src/drmsend.c:114-164 | A 1920×1080 framebuffer whose two planes share one buffer becomes one record with `num_fds == 1`. All four index slots are 0, and slot 0 holds the buffer's descriptor. |
| Handshake.TwoPlanesOneBuffer | src/dmabuf.c:317-357 | That framebuffer is accepted end to end. Its one descriptor lands in slot 0, the import reads it for all four planes, and closing releases exactly that descriptor. |
| Handshake.FirstUpdateImportsClosed | src/dmabuf.c:405-418 | Receive that framebuffer into a new source and run the first update with setting 0. It closes the one descriptor, then imports that same closed descriptor for all four planes. The record is activated exactly when the texture is created. |

## Left out

- The `select()` wait (src/dmabuf.c:158-185) is one input value: connectable, timed out, or failed. Its timeout bookkeeping and the `EINTR` retry are not modelled.
- `usleep` between polls is not modelled. Only the ten-poll decision over abstract `waitpid` answers is.
- Real socket, bind, listen, fork, exec, accept, unlink and close calls are boolean or outcome inputs. Descriptor numbers are opaque integers, and the kernel's renumbering on receive is a function parameter.
- The receive loop performs exactly one `recvmsg`. A short read is not modelled separately: `recvd > 0` is taken to deliver the whole response.
- libdrm enumeration (`drmModeGetPlaneResources`, `drmModeGetPlane`, `drmModeGetFB2`) and `main` (src/drmsend.c:205-234) are left out. The plane list is an input, and `main`'s zeroed state is `ZeroData`.
- Memory layout and byte encoding of the response are not modelled. The message is a value, and `ResponseSize` is only compared with itself, as the size check does.
- OBS graphics, texture import, rendering, the tick callback and the xcb cursor are foreign libraries. Texture creation is a predicate.
- The `texture` and `show_cursor` fields of the source are not part of `Session`.
- `dmabuf_source_create` (src/dmabuf.c:391-420) is modelled only in part. Its initial state is `Receiver.EmptyList` in a `Source.NewSession`, and Handshake.FirstUpdateImportsClosed follows its receive-then-update sequence for one list. Its allocation, failure cleanup and xcb cursor set-up are not modelled.
- `dmabuf_source_destroy`, property and UI construction, the `/dev/dri/card%d` listing and module registration (src/dmabuf.c:421-636) are glue and are not modelled.
- src/drm-helpers.h is not part of this model, because it only declares fourcc-name and format-mapping functions.
- Logging is not modelled, including the per-framebuffer summary after a receive; of that summary only whether its reads stay in bounds is kept (`Fetch.summaryOverrun`), not the values it prints or the `fourcc` it passes to `getDrmFourccName`. `ReapOutcome.loggedStatus` is kept only because the exit-status log is the reap's one observable effect.
- Receiver.ReceiveFramebuffers: the reap follows the `goto child_cleanup` paths for a failed select or accept too, as in the source. The `exited` flag those jumps skip initialising only affects a log line, so it is not modelled.
- Receiver.ReceiveFramebuffers: the `USE_PKEXEC` build option is a boolean parameter of the call rather than a compile-time constant.
- DrmSend.ResponseSend: the socket that `socket()` creates and the early returns leave open is not modelled.
- DrmSend.ResponseSend: the status of `sendmsg` is an input, and the byte count it logs is not modelled.
- Receiver.SocketPath: a path is a `string` in which one character stands for one byte of the C string. The length guard counts characters where `strlen` counts bytes, so multi-byte encodings are not modelled.
- DrmSend.ResponseSend: its socket-path length guard counts characters in the same way as Receiver.SocketPath.
- Receiver.Receive: after a copy that is not honoured, the outcome keeps only the stored response. The model promises nothing about the descriptor table after it. An overrunning copy leaves the table and the memory past it undefined in C. A short delivery leaves the slots past the delivered descriptors indeterminate.
- Receiver.ReceiveCountsAgree: it assumes at most 76 descriptors arrive, which is as many as the 320-byte control buffer holds. Kernel truncation of a larger block (`MSG_CTRUNC`) is not modelled.
- Source.Width: it requires the session invariant that the active index is -1 or a record slot. Open, Close and NewSession keep that invariant; the getter itself does not check it.
- Source.Height: it requires the same session invariant as Source.Width.
