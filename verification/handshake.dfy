/**
 * The exchange as a whole: what the helper sends meets what the receiving
 * plugin checks, and where the two sides' bounds differ.
 */
module Handshake {
  import opened Wrappers
  import opened Protocol
  import opened Dedup
  import opened DrmSend
  import opened Receiver
  import opened Source

  /**
   * A complete delivery of `t`: the whole response arrives and the kernel
   * installs the descriptors under the receiver's own numbers `rename`. An
   * SCM_RIGHTS header with no descriptor is dropped by the kernel, so the
   * receiver then reads back the buffer size it stored itself.
   */
  function Deliver(t: Transmission, rename: int -> int): (d: Delivery)
    requires |t.fds| <= MaxDeliveredFds
    requires t.controlLen == CmsgLen(FdPayloadBytes(|t.fds|))
    ensures KernelConsistent(d)
    ensures d.response == t.response && |d.fds| == |t.fds|
    ensures forall k :: 0 <= k < |d.fds| ==> d.fds[k] == rename(t.fds[k])
    ensures |t.fds| > 0 ==> d.controlLen == t.controlLen
  {
    var controlLen := if |t.fds| == 0 then ControlBufferLen else t.controlLen;
    Delivery(ResponseSize, t.response, controlLen, seq(|t.fds|, k requires 0 <= k < |t.fds| => rename(t.fds[k])))
  }

  /**
   * What the helper sends passes the tag and descriptor-count checks exactly
   * when it carries a descriptor: a response with none is rejected by the
   * count check. It is copied into the 16-slot table exactly when it carries
   * one to 16 descriptors; with more the copy overruns the table.
   */
  lemma SentResponsePassesChecks(sockname: string, data: ResponseData, list: FbList, rename: int -> int)
    requires Valid(data) && |sockname| < SunPathSize
    ensures var sent := ResponseSend(sockname, data, true, true).sent;
      && sent.Some?
      && var r := Receive(list, Deliver(sent.value, rename));
      && (Retval(r) == 1 <==> data.response.numFds > 0)
      && (data.response.numFds == 0 ==>
            r == Rejected(FdCountMismatch, list.(resp := data.response.(tag := Tag))))
      && ResponseAfter(r) == data.response.(tag := Tag)
      && (r.Accepted? <==> 0 < data.response.numFds <= MaxFramebuffers)
      && (r.CopyOverrun? <==> data.response.numFds > MaxFramebuffers)
      && (r.Accepted? ==> forall k :: 0 <= k < data.response.numFds ==> r.list.fbFds[k] == rename(data.fbFds[k]))
  {
    var t := ResponseSend(sockname, data, true, true).sent.value;
    var d := Deliver(t, rename);
    assert IsI32(d.response.numFds);
    ReceiveCountsAgree(list, d);
    if data.response.numFds == 0 {
      NoDescriptorsRejected(list, d);
    }
  }

  /**
   * When no plane yields a record, the helper's message is the zeroed
   * response and the receiver rejects it: the enumeration fails.
   */
  lemma NothingCapturedIsRejected(sockname: string, planes: seq<PlaneEntry>, toFd: Exporter, list: FbList, rename: int -> int)
    requires |sockname| < SunPathSize
    requires ReadPlanes(ZeroData, planes, toFd).response.numFramebuffers == 0
    ensures var data := ReadPlanes(ZeroData, planes, toFd);
      var r := Receive(list, Deliver(ResponseSend(sockname, data, true, true).sent.value, rename));
      r.Rejected? && r.error == FdCountMismatch && Retval(r) == 0
  {
    SentResponsePassesChecks(sockname, ReadPlanes(ZeroData, planes, toFd), list, rename);
  }

  /** Appending a framebuffer of four distinct buffers adds four descriptors. */
  lemma FourDistinctBuffersAddFour(data: ResponseData, fb: DrmFb, toFd: Exporter)
    requires Valid(data) && Succeeds(data, fb, toFd) && PlaneCount(fb.handles) == PlaneSlots
    requires forall a, b :: 0 <= a < b < PlaneSlots ==> toFd(fb.handles[a]) != toFd(fb.handles[b])
    ensures AppendFramebuffer(data, fb, toFd).data.response.numFds == data.response.numFds + PlaneSlots
  {
    AppendCommits(data, fb, toFd);
    var fds := Resolve(fb.handles, toFd).fds;
    DistinctValuesCount(fds);
    CommitRecord(data, fb, fds);
  }

  /**
   * A sender state with four records and 16 descriptors accepts a fifth
   * framebuffer of four distinct buffers, reaching 20 descriptors, and that
   * message overruns the receiver's 16-slot table.
   */
  lemma SenderCanOverrunReceiver(data: ResponseData, fb: DrmFb, toFd: Exporter, sockname: string, list: FbList, rename: int -> int)
    requires Valid(data) && IdsAllZero(data)
    requires data.response.numFramebuffers == 4 && data.response.numFds == 16
    requires fb.fbId != 0 && PlaneCount(fb.handles) == PlaneSlots
    requires forall k :: 0 <= k < PlaneSlots ==> Exports(toFd, fb.handles[k])
    requires forall a, b :: 0 <= a < b < PlaneSlots ==> toFd(fb.handles[a]) != toFd(fb.handles[b])
    requires |sockname| < SunPathSize
    ensures var next := AppendFramebuffer(data, fb, toFd).data;
      && next.response.numFds == 20
      && Receive(list, Deliver(ResponseSend(sockname, next, true, true).sent.value, rename)).CopyOverrun?
  {
    assert !IsDuplicate(data, fb.fbId);
    FourDistinctBuffersAddFour(data, fb, toFd);
    SentResponsePassesChecks(sockname, AppendFramebuffer(data, fb, toFd).data, list, rename);
  }

  /**
   * The success path with prefix-closed first occurrences: every plane
   * indexes a slot among the new descriptors holding its descriptor, and
   * the slots past the planes keep their indexes.
   */
  lemma CommitPlanesIndexDescriptors(data: ResponseData, fb: DrmFb, fds: seq<int>)
    requires Valid(data) && data.response.numFramebuffers < MaxFramebuffers
    requires 0 < |fds| <= PlaneSlots && FirstsArePrefix(fds)
    ensures var c := Commit(data, fb, fds);
      var n := data.response.numFramebuffers;
      var rec := c.response.framebuffers[n];
      && data.response.numFds < c.response.numFds
      && (forall k :: 0 <= k < |fds| ==>
            && data.response.numFds <= rec.fdIndexes[k] < c.response.numFds
            && c.fbFds[rec.fdIndexes[k]] == fds[k])
      && (forall k :: |fds| <= k < PlaneSlots ==>
            rec.fdIndexes[k] == data.response.framebuffers[n].fdIndexes[k])
  {
    CommitRecord(data, fb, fds);
    CommitTable(data, fb, fds);
    CommitIndexesInTableIffPrefix(data, fb, fds);
    assert fds[0] in Values(fds);
  }

  /**
   * After a successful append whose planes' first occurrences form a
   * prefix, every plane indexes a slot among the new descriptors, and that
   * slot holds the plane's export; the slots past the planes keep their
   * indexes.
   */
  lemma AppendedPlanesIndexExports(data: ResponseData, fb: DrmFb, toFd: Exporter)
    requires Valid(data) && Succeeds(data, fb, toFd)
    requires FirstsArePrefix(Resolve(fb.handles, toFd).fds)
    ensures var next := AppendFramebuffer(data, fb, toFd).data;
      var n := data.response.numFramebuffers;
      var rec := next.response.framebuffers[n];
      && data.response.numFds < next.response.numFds
      && (forall k :: 0 <= k < PlaneCount(fb.handles) ==>
            && data.response.numFds <= rec.fdIndexes[k] < next.response.numFds
            && next.fbFds[rec.fdIndexes[k]] == toFd(fb.handles[k]).value)
      && (forall k :: PlaneCount(fb.handles) <= k < PlaneSlots ==>
            rec.fdIndexes[k] == data.response.framebuffers[n].fdIndexes[k])
  {
    AppendCommits(data, fb, toFd);
    CommitPlanesIndexDescriptors(data, fb, Resolve(fb.handles, toFd).fds);
  }

  /**
   * A record received with one to 16 descriptors and all four indexes inside
   * the 16-slot table imports, through every index below `numFds`, the
   * receiver's number for the helper's descriptor in that slot.
   */
  lemma ImportThroughTable(next: ResponseData, n: nat, sockname: string, list: FbList, rename: int -> int)
    requires Valid(next) && 0 < next.response.numFds <= MaxFramebuffers && n < MaxFramebuffers
    requires forall k :: 0 <= k < PlaneSlots ==> 0 <= next.response.framebuffers[n].fdIndexes[k] < MaxFramebuffers
    requires |sockname| < SunPathSize
    ensures var r := Receive(list, Deliver(ResponseSend(sockname, next, true, true).sent.value, rename));
      var ix := next.response.framebuffers[n].fdIndexes;
      && r.Accepted?
      && ImportParamsOf(r.list, n).InBounds?
      && (forall k :: 0 <= k < PlaneSlots && ix[k] < next.response.numFds ==>
            ImportParamsOf(r.list, n).value.fds[k] == rename(next.fbFds[ix[k]]))
  {
    SentResponsePassesChecks(sockname, next, list, rename);
    var r := Receive(list, Deliver(ResponseSend(sockname, next, true, true).sent.value, rename));
    assert r.list.resp.framebuffers[n] == next.response.framebuffers[n];
  }

  /**
   * The plugin imports what the helper exported: when one appended record
   * reaches the receiver with at most 16 descriptors and its planes' first
   * occurrences form a prefix, the import reads, for every plane, the
   * receiver's number for that plane's exported buffer.
   */
  lemma ImportReadsExportedDescriptors(data: ResponseData, fb: DrmFb, toFd: Exporter, sockname: string, list: FbList, rename: int -> int)
    requires Valid(data) && Succeeds(data, fb, toFd)
    requires FirstsArePrefix(Resolve(fb.handles, toFd).fds)
    requires AppendFramebuffer(data, fb, toFd).data.response.numFds <= MaxFramebuffers
    requires forall k :: PlaneCount(fb.handles) <= k < PlaneSlots ==>
      0 <= data.response.framebuffers[data.response.numFramebuffers].fdIndexes[k] < MaxFramebuffers
    requires |sockname| < SunPathSize
    ensures var next := AppendFramebuffer(data, fb, toFd).data;
      var r := Receive(list, Deliver(ResponseSend(sockname, next, true, true).sent.value, rename));
      var n := data.response.numFramebuffers;
      && r.Accepted?
      && ImportParamsOf(r.list, n).InBounds?
      && (forall k :: 0 <= k < PlaneCount(fb.handles) ==>
            ImportParamsOf(r.list, n).value.fds[k] == rename(toFd(fb.handles[k]).value))
  {
    var next := AppendFramebuffer(data, fb, toFd).data;
    var n := data.response.numFramebuffers;
    AppendedPlanesIndexExports(data, fb, toFd);
    ImportThroughTable(next, n, sockname, list, rename);
  }

  /**
   * The [7, 7, 8] counterpart: plane 2 indexes slot 2, which the two
   * delivered descriptors never fill, so the import reads the receiver's
   * initial -1 there instead of the third buffer's descriptor.
   */
  lemma DedupGapImportsEmptySlot(sockname: string, rename: int -> int)
    requires |sockname| < SunPathSize
    ensures var data := AppendFramebuffer(ZeroData, DrmFb(1, 64, 64, 0, 0, [7, 7, 8, 0], ZeroQuad, ZeroQuad), h => Some(h + 100)).data;
      var r := Receive(EmptyList, Deliver(ResponseSend(sockname, data, true, true).sent.value, rename));
      && r.Accepted?
      && ImportParamsOf(r.list, 0).InBounds?
      && ImportParamsOf(r.list, 0).value.fds == [rename(107), rename(107), -1, rename(107)]
  {
    var data := AppendFramebuffer(ZeroData, DrmFb(1, 64, 64, 0, 0, [7, 7, 8, 0], ZeroQuad, ZeroQuad), h => Some(h + 100)).data;
    DedupIndexEscapesTable();
    ImportThroughTable(data, 0, sockname, EmptyList, rename);
    SentResponsePassesChecks(sockname, data, EmptyList, rename);
    var r := Receive(EmptyList, Deliver(ResponseSend(sockname, data, true, true).sent.value, rename));
    assert r.list.resp.framebuffers[0] == data.response.framebuffers[0];
    assert r.list.fbFds[2] == -1;
  }

  /** Any socket path the receiver builds passes the helper's own length guard. */
  lemma SocketPathPassesSenderGuard(modulePath: string, data: ResponseData, sendOk: bool)
    requires Valid(data) && SocketPath(modulePath).Some?
    ensures ResponseSend(SocketPath(modulePath).value, data, true, sendOk).status == 1
  {
  }

  /** A 1920x1080 framebuffer whose first two planes come from the same buffer handle. */
  function SharedBufferFb(id: int, handle: int, pitch: int): (fb: DrmFb)
    requires handle != 0
    ensures PlaneCount(fb.handles) == 2 && fb.handles[0] == fb.handles[1] == handle
  {
    var fb := DrmFb(id, 1920, 1080, 0x34325258, 0, [handle, handle, 0, 0], [pitch, pitch, 0, 0], ZeroQuad);
    assert fb.handles[2] == 0;
    fb
  }

  /** Commit from a zeroed start with the descriptor list [fd, fd]. */
  lemma CommitSharedPair(fb: DrmFb, fd: int)
    ensures var c := Commit(ZeroData, fb, [fd, fd]);
      var rec := c.response.framebuffers[0];
      && c.response.numFramebuffers == 1
      && c.response.numFds == 1
      && rec.planes == 2 && rec.fdIndexes == [0, 0, 0, 0]
      && rec.width == fb.width && rec.height == fb.height
      && rec.fourcc == fb.pixelFormat && rec.modifier == fb.modifier
      && c.fbFds[0] == fd
  {
    var fds := [fd, fd];
    assert FirstOccurrence(fds, 1) == 0;
    assert Values(fds) == {fd} by {
      assert fds[..1] == [fd];
    }
    CommitRecord(ZeroData, fb, fds);
    CommitTable(ZeroData, fb, fds);
  }

  /**
   * The helper records a framebuffer whose two planes share one buffer
   * once, with one descriptor that both planes index at slot 0.
   */
  lemma SharedBufferRecordedOnce(id: int, handle: int, toFd: Exporter, pitch: int)
    requires id != 0 && handle != 0 && Exports(toFd, handle)
    ensures var data := ReadDrmData(ZeroData, Some([Plane(id, Some(SharedBufferFb(id, handle, pitch)))]), toFd);
      var rec := data.response.framebuffers[0];
      && Valid(data)
      && data.response.numFramebuffers == 1
      && data.response.numFds == 1
      && rec.planes == 2 && rec.fdIndexes == [0, 0, 0, 0]
      && rec.width == 1920 && rec.height == 1080 && rec.fourcc == 0x34325258 && rec.modifier == 0
      && data.fbFds[0] == toFd(handle).value
  {
    var fb := SharedBufferFb(id, handle, pitch);
    assert !IsDuplicate(ZeroData, id);
    assert Succeeds(ZeroData, fb, toFd);
    ReadSinglePlane(ZeroData, id, fb, toFd);
    AppendCommits(ZeroData, fb, toFd);
    assert Resolve(fb.handles, toFd).fds == [toFd(handle).value, toFd(handle).value];
    CommitSharedPair(fb, toFd(handle).value);
  }

  /**
   * End to end for that framebuffer: the receiver accepts the message, the
   * record's one descriptor lands in slot 0, and closing releases exactly it.
   */
  lemma TwoPlanesOneBuffer(id: int, handle: int, toFd: Exporter, rename: int -> int, sockname: string, pitch: int)
    requires id != 0 && handle != 0 && Exports(toFd, handle)
    requires rename(toFd(handle).value) > 0 && |sockname| < SunPathSize
    ensures var data := ReadDrmData(ZeroData, Some([Plane(id, Some(SharedBufferFb(id, handle, pitch)))]), toFd);
      var r := Receive(EmptyList, Deliver(ResponseSend(sockname, data, true, true).sent.value, rename));
      && r.Accepted?
      && r.list.fbFds[0] == rename(toFd(handle).value)
      && CloseFds(r.list) == InBounds([rename(toFd(handle).value)])
      && ImportParamsOf(r.list, 0).InBounds?
      && var fd := rename(toFd(handle).value);
      && ImportParamsOf(r.list, 0).value.fds == [fd, fd, fd, fd]
  {
    var data := ReadDrmData(ZeroData, Some([Plane(id, Some(SharedBufferFb(id, handle, pitch)))]), toFd);
    var fd := rename(toFd(handle).value);
    SharedBufferRecordedOnce(id, handle, toFd, pitch);
    ImportThroughTable(data, 0, sockname, EmptyList, rename);
    SentResponsePassesChecks(sockname, data, EmptyList, rename);
    var r := Receive(EmptyList, Deliver(ResponseSend(sockname, data, true, true).sent.value, rename));
    assert r.list.fbFds[..1] == [fd];
    assert Positives([fd]) == [fd] by {
      assert [fd][1..] == [];
    }
  }
  /**
   * The source's first update, right after that receive, selects setting 0.
   * It closes the one descriptor and then imports the same closed
   * descriptor for all four planes.
   */
  lemma FirstUpdateImportsClosed(id: int, handle: int, toFd: Exporter, rename: int -> int, sockname: string,
                                 pitch: int, createTexture: ImportParams -> bool)
    requires id != 0 && handle != 0 && Exports(toFd, handle)
    requires rename(toFd(handle).value) > 0 && |sockname| < SunPathSize
    ensures var data := ReadDrmData(ZeroData, Some([Plane(id, Some(SharedBufferFb(id, handle, pitch)))]), toFd);
      Receive(EmptyList, Deliver(ResponseSend(sockname, data, true, true).sent.value, rename)).Accepted?
    ensures var data := ReadDrmData(ZeroData, Some([Plane(id, Some(SharedBufferFb(id, handle, pitch)))]), toFd);
      var r := Receive(EmptyList, Deliver(ResponseSend(sockname, data, true, true).sent.value, rename));
      var u := Update(NewSession(r.list), 0, createTexture);
      var fd := rename(toFd(handle).value);
      && u.InBounds?
      && u.value.closed == [fd]
      && ImportParamsOf(r.list, 0).InBounds?
      && ImportParamsOf(r.list, 0).value.fds == [fd, fd, fd, fd]
      && (u.value.session.activeFb == 0 <==> createTexture(ImportParamsOf(r.list, 0).value))
  {
    var data := ReadDrmData(ZeroData, Some([Plane(id, Some(SharedBufferFb(id, handle, pitch)))]), toFd);
    TwoPlanesOneBuffer(id, handle, toFd, rename, sockname, pitch);
    SharedBufferRecordedOnce(id, handle, toFd, pitch);
    SentResponsePassesChecks(sockname, data, EmptyList, rename);
    var r := Receive(EmptyList, Deliver(ResponseSend(sockname, data, true, true).sent.value, rename));
    assert r.list.resp.framebuffers[0].fbId == 0;
    assert ScanFrom(r.list.resp, 0, 0) == InBounds(0);
  }
}
