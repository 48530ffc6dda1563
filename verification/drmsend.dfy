/**
 * The privileged helper (src/drmsend.c): it walks the scanout planes, appends
 * one record per framebuffer to a response, exports each buffer handle as a
 * descriptor into a shared table, and sends the response with the table's
 * used prefix as ancillary data.
 */
module DrmSend {
  import opened Wrappers
  import opened Protocol
  import opened Dedup

  /** Slots of the sender's descriptor table: four per record. */
  const FdTableSlots: nat := 64

  type FdTable = s: seq<int> | |s| == FdTableSlots witness seq(64, _ => 0)

  /** response_data_t: the response and the descriptor table it indexes. */
  datatype ResponseData = ResponseData(response: Response, fbFds: FdTable)

  /** The state `main` starts from: everything zero. */
  const ZeroData: ResponseData := ResponseData(ZeroResponse, seq(64, _ => 0))

  /**
   * What the sender keeps true between appends: at most 16 records and at
   * most four descriptors per record, so every table write stays in the table.
   */
  predicate Valid(d: ResponseData) {
    && 0 <= d.response.numFramebuffers <= MaxFramebuffers
    && 0 <= d.response.numFds <= PlaneSlots * d.response.numFramebuffers
  }

  /** The part of drmModeFB2 the append step reads. */
  datatype DrmFb = DrmFb(
    fbId: int,
    width: int,
    height: int,
    pixelFormat: int,
    modifier: int,
    handles: Quad,
    pitches: Quad,
    offsets: Quad)

  /** drmPrimeHandleToFD: the descriptor for a handle, or None when the call fails. */
  type Exporter = int -> Option<int>

  /** The export of `handle` succeeds: a zero return and a descriptor other than -1. */
  predicate Exports(toFd: Exporter, handle: int) {
    toFd(handle).Some? && toFd(handle).value != -1
  }

  function PlanesFrom(handles: Quad, i: nat): (n: nat)
    requires i <= PlaneSlots
    requires forall k :: 0 <= k < i ==> handles[k] != 0
    ensures i <= n <= PlaneSlots
    ensures forall k :: 0 <= k < n ==> handles[k] != 0
    ensures n < PlaneSlots ==> handles[n] == 0
    decreases PlaneSlots - i
  {
    if i == PlaneSlots || handles[i] == 0 then i else PlanesFrom(handles, i + 1)
  }

  /** The planes the append loop visits: the leading nonzero handles, at most four. */
  function PlaneCount(handles: Quad): (n: nat)
    ensures n <= PlaneSlots
    ensures forall k :: 0 <= k < n ==> handles[k] != 0
    ensures n < PlaneSlots ==> handles[n] == 0
  {
    PlanesFrom(handles, 0)
  }

  predicate NoRepeats(s: seq<int>) {
    forall a, b :: 0 <= a < b < |s| ==> s[a] != s[b]
  }

  lemma NoRepeatsExtend(s: seq<int>, x: int)
    requires NoRepeats(s) && x !in s
    ensures NoRepeats(s + [x])
  {
  }

  /**
   * The outcome of the plane loop: the descriptor of every visited plane, or
   * the plane whose toFd failed; `exported` lists the handles passed to the
   * kernel, in call order.
   */
  datatype Resolution =
    | Resolved(fds: seq<int>, exported: seq<int>)
    | ExportFailed(plane: nat, exported: seq<int>)

  /** The loop has visited planes 0..i-1, each holding the toFd of its handle. */
  ghost predicate ResolvedUpTo(handles: Quad, toFd: Exporter, i: nat, fds: seq<int>, exported: seq<int>) {
    && i <= PlaneCount(handles)
    && |fds| == i
    && (forall k :: 0 <= k < i ==> Exports(toFd, handles[k]) && fds[k] == toFd(handles[k]).value)
    && NoRepeats(exported)
    && (forall h :: h in exported <==> h in handles[..i])
  }

  function ResolveFrom(handles: Quad, toFd: Exporter, i: nat, fds: seq<int>, exported: seq<int>): (r: Resolution)
    requires ResolvedUpTo(handles, toFd, i, fds, exported)
    ensures r.Resolved? ==> ResolvedUpTo(handles, toFd, PlaneCount(handles), r.fds, r.exported)
    ensures r.ExportFailed? ==>
      && i <= r.plane < PlaneCount(handles)
      && IsFirst(handles, r.plane)
      && !Exports(toFd, handles[r.plane])
      && (forall k :: 0 <= k < r.plane ==> Exports(toFd, handles[k]))
      && NoRepeats(r.exported)
      && (forall h :: h in r.exported <==> h in handles[..r.plane + 1])
    ensures r.Resolved? <==> forall k :: i <= k < PlaneCount(handles) ==> Exports(toFd, handles[k])
    decreases PlaneSlots - i
  {
    if i == PlaneSlots || handles[i] == 0 then
      Resolved(fds, exported)
    else
      var j := FirstOccurrence(handles, i);
      if j < i then
        ResolveFrom(handles, toFd, i + 1, fds + [fds[j]], exported)
      else
        IsFirstIffNew(handles, i);
        NoRepeatsExtend(exported, handles[i]);
        if Exports(toFd, handles[i]) then
          ResolveFrom(handles, toFd, i + 1, fds + [toFd(handles[i]).value], exported + [handles[i]])
        else
          ExportFailed(i, exported + [handles[i]])
  }

  /**
   * The plane loop of the append step: a handle equal to an earlier plane's
   * reuses that plane's descriptor, and each distinct handle is exported once.
   */
  function Resolve(handles: Quad, toFd: Exporter): (r: Resolution)
    ensures r.Resolved? <==> forall k :: 0 <= k < PlaneCount(handles) ==> Exports(toFd, handles[k])
    ensures r.Resolved? ==>
      && |r.fds| == PlaneCount(handles)
      && (forall k :: 0 <= k < |r.fds| ==> r.fds[k] == toFd(handles[k]).value)
      && NoRepeats(r.exported)
      && (forall h :: h in r.exported <==> h in handles[..PlaneCount(handles)])
    ensures r.ExportFailed? ==>
      && r.plane < PlaneCount(handles)
      && IsFirst(handles, r.plane)
      && !Exports(toFd, handles[r.plane])
      && (forall k :: 0 <= k < r.plane ==> Exports(toFd, handles[k]))
      && NoRepeats(r.exported)
      && (forall h :: h in r.exported <==> h in handles[..r.plane + 1])
  {
    ResolveFrom(handles, toFd, 0, [], [])
  }

  /** `prior` with its first `n` slots replaced by those of `src`. */
  function Overlay(prior: Quad, src: Quad, n: nat): (r: Quad)
    requires n <= PlaneSlots
    ensures forall k :: 0 <= k < PlaneSlots ==> r[k] == if k < n then src[k] else prior[k]
  {
    src[..n] + prior[n..]
  }

  /** The record slot once the plane loop has counted `n` planes. */
  function WritePlanes(slot: Framebuffer, fb: DrmFb, n: nat): Framebuffer
    requires n <= PlaneSlots
  {
    slot.(planes := n, pitches := Overlay(slot.pitches, fb.pitches, n), offsets := Overlay(slot.offsets, fb.offsets, n))
  }

  /** fd_indexes after the unique-descriptor loop: plane `i` gets `base` plus its first match. */
  function FdIndexes(prior: Quad, fds: seq<int>, base: int): (r: Quad)
    requires |fds| <= PlaneSlots
  {
    seq(PlaneSlots, i requires 0 <= i < PlaneSlots =>
      if i < |fds| then base + FirstOccurrence(fds, i) else prior[i])
  }

  /** The table writes of the unique-descriptor loop over its first `m` planes. */
  function StoreFirsts(table: FdTable, fds: seq<int>, base: nat, m: nat): (r: FdTable)
    requires m <= |fds| && base + |fds| <= FdTableSlots
    ensures forall p :: 0 <= p < FdTableSlots ==>
      r[p] == if base <= p < base + m && IsFirst(fds, p - base) then fds[p - base] else table[p]
  {
    if m == 0 then table
    else
      var t := StoreFirsts(table, fds, base, m - 1);
      if IsFirst(fds, m - 1) then t[base + m - 1 := fds[m - 1]] else t
  }

  function WithRecord(data: ResponseData, n: nat, rec: Framebuffer): ResponseData
    requires n < MaxFramebuffers
  {
    data.(response := data.response.(framebuffers := data.response.framebuffers[n := rec]))
  }

  /** The state after the plane loop resolved `fds`: the new record, its indexes and the table writes. */
  function Commit(data: ResponseData, fb: DrmFb, fds: seq<int>): (r: ResponseData)
    requires Valid(data) && data.response.numFramebuffers < MaxFramebuffers
    requires 0 < |fds| <= PlaneSlots
    ensures Valid(r)
    ensures r.response.numFramebuffers == data.response.numFramebuffers + 1
    ensures r.response.tag == data.response.tag
    ensures forall k :: 0 <= k < MaxFramebuffers ==>
      r.response.framebuffers[k].fbId == data.response.framebuffers[k].fbId
  {
    var resp := data.response;
    var n := resp.numFramebuffers;
    var base := resp.numFds;
    var slot := resp.framebuffers[n];
    var rec := WritePlanes(slot, fb, |fds|).(
      width := fb.width,
      height := fb.height,
      fourcc := fb.pixelFormat,
      modifier := fb.modifier,
      fdIndexes := FdIndexes(slot.fdIndexes, fds, base));
    var resp' := resp.(
      numFramebuffers := n + 1,
      numFds := base + CountFirsts(fds, |fds|),
      framebuffers := resp.framebuffers[n := rec]);
    ResponseData(resp', StoreFirsts(data.fbFds, fds, base, |fds|))
  }

  /** Some stored record among the first `numFramebuffers` carries `fbId`. */
  predicate IsDuplicate(data: ResponseData, fbId: int)
    requires Valid(data)
  {
    exists k :: 0 <= k < data.response.numFramebuffers && data.response.framebuffers[k].fbId == fbId
  }

  /** The append step adds a record: new id, room left, at least one plane, every toFd succeeds. */
  predicate Succeeds(data: ResponseData, fb: DrmFb, toFd: Exporter)
    requires Valid(data)
  {
    && !IsDuplicate(data, fb.fbId)
    && data.response.numFramebuffers < MaxFramebuffers
    && PlaneCount(fb.handles) > 0
    && (forall k :: 0 <= k < PlaneCount(fb.handles) ==> Exports(toFd, fb.handles[k]))
  }

  /** The status returned, the state left behind and the handles exported. */
  datatype AppendResult = AppendResult(status: int, data: ResponseData, exported: seq<int>)

  /**
   * responseAppendFramebuffer. It never writes a record's fbId; a failure
   * after the capacity check leaves the counts and the table alone but may
   * have scribbled plane count, pitches and offsets into the unused slot.
   */
  function AppendFramebuffer(data: ResponseData, fb: DrmFb, toFd: Exporter): (r: AppendResult)
    requires Valid(data)
    ensures Valid(r.data)
    ensures r.status == 0 || r.status == -1
    ensures IsDuplicate(data, fb.fbId) ==> r == AppendResult(0, data, [])
    ensures !IsDuplicate(data, fb.fbId) && data.response.numFramebuffers == MaxFramebuffers ==>
      r == AppendResult(-1, data, [])
    ensures r.status == -1 ==>
      && r.data.response.numFramebuffers == data.response.numFramebuffers
      && r.data.response.numFds == data.response.numFds
      && r.data.fbFds == data.fbFds
      && (forall k :: 0 <= k < MaxFramebuffers && k != data.response.numFramebuffers ==>
            r.data.response.framebuffers[k] == data.response.framebuffers[k])
    ensures r.data.response.tag == data.response.tag
    ensures forall k :: 0 <= k < MaxFramebuffers ==>
      r.data.response.framebuffers[k].fbId == data.response.framebuffers[k].fbId
  {
    var resp := data.response;
    var n := resp.numFramebuffers;
    if IsDuplicate(data, fb.fbId) then
      AppendResult(0, data, [])
    else if n == MaxFramebuffers then
      AppendResult(-1, data, [])
    else
      var slot := resp.framebuffers[n];
      match Resolve(fb.handles, toFd)
      case ExportFailed(plane, exported) =>
        AppendResult(-1, WithRecord(data, n, WritePlanes(slot, fb, plane)), exported)
      case Resolved(fds, exported) =>
        if |fds| == 0 then
          AppendResult(-1, WithRecord(data, n, WritePlanes(slot, fb, 0)), exported)
        else
          AppendResult(0, Commit(data, fb, fds), exported)
  }

  /** Which calls return 0 and which add a record. */
  lemma AppendStatus(data: ResponseData, fb: DrmFb, toFd: Exporter)
    requires Valid(data)
    ensures var r := AppendFramebuffer(data, fb, toFd);
      && (r.status == 0 <==> IsDuplicate(data, fb.fbId) || Succeeds(data, fb, toFd))
      && (r.data.response.numFramebuffers == data.response.numFramebuffers + 1 <==> Succeeds(data, fb, toFd))
  {
  }

  /** The record, counts and exports Commit yields. */
  lemma CommitRecord(data: ResponseData, fb: DrmFb, fds: seq<int>)
    requires Valid(data) && data.response.numFramebuffers < MaxFramebuffers
    requires 0 < |fds| <= PlaneSlots
    ensures var r := Commit(data, fb, fds);
      var n := data.response.numFramebuffers;
      var rec := r.response.framebuffers[n];
      && rec.width == fb.width && rec.height == fb.height
      && rec.fourcc == fb.pixelFormat && rec.modifier == fb.modifier
      && rec.planes == |fds|
      && (forall k :: 0 <= k < |fds| ==> rec.pitches[k] == fb.pitches[k] && rec.offsets[k] == fb.offsets[k])
      && (forall k :: |fds| <= k < PlaneSlots ==>
            && rec.pitches[k] == data.response.framebuffers[n].pitches[k]
            && rec.offsets[k] == data.response.framebuffers[n].offsets[k])
      && r.response.numFds == data.response.numFds + |Values(fds)|
      && (forall k :: 0 <= k < MaxFramebuffers && k != n ==>
            r.response.framebuffers[k] == data.response.framebuffers[k])
  {
    var r := Commit(data, fb, fds);
    var n := data.response.numFramebuffers;
    var slot := data.response.framebuffers[n];
    var rec := r.response.framebuffers[n];
    assert rec.pitches == Overlay(slot.pitches, fb.pitches, |fds|);
    assert rec.offsets == Overlay(slot.offsets, fb.offsets, |fds|);
    assert r.response.framebuffers == data.response.framebuffers[n := rec];
    CountFirstsIsDistinct(fds, |fds|);
    assert fds[..|fds|] == fds;
  }

  /** The index and table bookkeeping Commit yields. */
  lemma CommitTable(data: ResponseData, fb: DrmFb, fds: seq<int>)
    requires Valid(data) && data.response.numFramebuffers < MaxFramebuffers
    requires 0 < |fds| <= PlaneSlots
    ensures var r := Commit(data, fb, fds);
      var base := data.response.numFds;
      var rec := r.response.framebuffers[data.response.numFramebuffers];
      && (forall i :: 0 <= i < |fds| ==> rec.fdIndexes[i] == base + FirstOccurrence(fds, i))
      && (forall i, j :: 0 <= i < |fds| && 0 <= j < |fds| ==>
            (rec.fdIndexes[i] == rec.fdIndexes[j] <==> fds[i] == fds[j]))
      && (forall i :: 0 <= i < |fds| ==> r.fbFds[rec.fdIndexes[i]] == fds[i])
      && (forall i :: |fds| <= i < PlaneSlots ==>
            rec.fdIndexes[i] == data.response.framebuffers[data.response.numFramebuffers].fdIndexes[i])
      && (forall p :: 0 <= p < base ==> r.fbFds[p] == data.fbFds[p])
  {
    var r := Commit(data, fb, fds);
    var base := data.response.numFds;
    var rec := r.response.framebuffers[data.response.numFramebuffers];
    forall i, j | 0 <= i < |fds| && 0 <= j < |fds|
      ensures FirstOccurrence(fds, i) == FirstOccurrence(fds, j) <==> fds[i] == fds[j]
    {
      SharedIndexIffEqual(fds, i, j);
    }
    forall i | 0 <= i < |fds|
      ensures r.fbFds[rec.fdIndexes[i]] == fds[i]
    {
      var j := FirstOccurrence(fds, i);
      assert FirstOccurrence(fds, j) == j;
      assert rec.fdIndexes[i] == base + j;
    }
  }

  /** Equal descriptors, and only those, share an index. */
  lemma SharedIndexIffEqual(fds: seq<int>, i: nat, j: nat)
    requires i < |fds| && j < |fds|
    ensures FirstOccurrence(fds, i) == FirstOccurrence(fds, j) <==> fds[i] == fds[j]
  {
  }

  /** In a successful append Resolve yields the descriptors and Commit the state. */
  lemma AppendCommits(data: ResponseData, fb: DrmFb, toFd: Exporter)
    requires Valid(data) && Succeeds(data, fb, toFd)
    ensures var res := Resolve(fb.handles, toFd);
      && res.Resolved? && |res.fds| == PlaneCount(fb.handles)
      && AppendFramebuffer(data, fb, toFd) == AppendResult(0, Commit(data, fb, res.fds), res.exported)
  {
  }

  /** A successful append: the new record, the counts, and nothing else among the records. */
  lemma AppendSuccessRecord(data: ResponseData, fb: DrmFb, toFd: Exporter)
    requires Valid(data) && Succeeds(data, fb, toFd)
    ensures var r := AppendFramebuffer(data, fb, toFd);
      var n := data.response.numFramebuffers;
      var fds := Resolve(fb.handles, toFd).fds;
      var rec := r.data.response.framebuffers[n];
      && r.status == 0
      && r.data.response.numFramebuffers == n + 1
      && rec.width == fb.width && rec.height == fb.height
      && rec.fourcc == fb.pixelFormat && rec.modifier == fb.modifier
      && rec.planes == PlaneCount(fb.handles) == |fds|
      && (forall k :: 0 <= k < |fds| ==> rec.pitches[k] == fb.pitches[k] && rec.offsets[k] == fb.offsets[k])
      && (forall k :: |fds| <= k < PlaneSlots ==>
            && rec.pitches[k] == data.response.framebuffers[n].pitches[k]
            && rec.offsets[k] == data.response.framebuffers[n].offsets[k])
      && r.data.response.numFds == data.response.numFds + |Values(fds)|
      && (forall k :: 0 <= k < MaxFramebuffers && k != n ==>
            r.data.response.framebuffers[k] == data.response.framebuffers[k])
      && NoRepeats(r.exported)
      && (forall h :: h in r.exported <==> h in fb.handles[..|fds|])
  {
    AppendCommits(data, fb, toFd);
    CommitRecord(data, fb, Resolve(fb.handles, toFd).fds);
  }

  /**
   * A successful append's descriptor bookkeeping: plane `i` indexes the old
   * `numFds` plus the first plane with an equal descriptor, equal descriptors
   * share an index, and the slot indexed holds the plane's descriptor.
   */
  lemma AppendSuccessTable(data: ResponseData, fb: DrmFb, toFd: Exporter)
    requires Valid(data) && Succeeds(data, fb, toFd)
    ensures var r := AppendFramebuffer(data, fb, toFd);
      var base := data.response.numFds;
      var fds := Resolve(fb.handles, toFd).fds;
      var rec := r.data.response.framebuffers[data.response.numFramebuffers];
      && (forall i :: 0 <= i < |fds| ==> fds[i] == toFd(fb.handles[i]).value)
      && (forall i :: 0 <= i < |fds| ==> rec.fdIndexes[i] == base + FirstOccurrence(fds, i))
      && (forall i, j :: 0 <= i < |fds| && 0 <= j < |fds| ==>
            (rec.fdIndexes[i] == rec.fdIndexes[j] <==> fds[i] == fds[j]))
      && (forall i :: 0 <= i < |fds| ==> r.data.fbFds[rec.fdIndexes[i]] == fds[i])
      && (forall i :: |fds| <= i < PlaneSlots ==>
            rec.fdIndexes[i] == data.response.framebuffers[data.response.numFramebuffers].fdIndexes[i])
      && (forall p :: 0 <= p < base ==> r.data.fbFds[p] == data.fbFds[p])
  {
    AppendCommits(data, fb, toFd);
    CommitTable(data, fb, Resolve(fb.handles, toFd).fds);
  }

  /**
   * Every index the new record uses lies below the new `numFds` exactly when
   * the planes' first occurrences form a prefix. With descriptors [A, A, B]
   * plane 2 indexes `numFds + 2` while `numFds` only grows by 2.
   */
  lemma AppendIndexesInTableIffPrefix(data: ResponseData, fb: DrmFb, toFd: Exporter)
    requires Valid(data) && Succeeds(data, fb, toFd)
    ensures var r := AppendFramebuffer(data, fb, toFd);
      var rec := r.data.response.framebuffers[data.response.numFramebuffers];
      (forall i :: 0 <= i < rec.planes ==> rec.fdIndexes[i] < r.data.response.numFds)
        <==> FirstsArePrefix(Resolve(fb.handles, toFd).fds)
  {
    AppendCommits(data, fb, toFd);
    CommitIndexesInTableIffPrefix(data, fb, Resolve(fb.handles, toFd).fds);
  }

  lemma CommitIndexesInTableIffPrefix(data: ResponseData, fb: DrmFb, fds: seq<int>)
    requires Valid(data) && data.response.numFramebuffers < MaxFramebuffers
    requires 0 < |fds| <= PlaneSlots
    ensures var c := Commit(data, fb, fds);
      var rec := c.response.framebuffers[data.response.numFramebuffers];
      (forall i :: 0 <= i < rec.planes ==> rec.fdIndexes[i] < c.response.numFds)
        <==> FirstsArePrefix(fds)
  {
    var c := Commit(data, fb, fds);
    var rec := c.response.framebuffers[data.response.numFramebuffers];
    var base := data.response.numFds;
    var cf := CountFirsts(fds, |fds|);
    assert rec.planes == |fds| && c.response.numFds == base + cf;
    assert forall i :: 0 <= i < |fds| ==> rec.fdIndexes[i] == base + FirstOccurrence(fds, i) by {
      CommitTable(data, fb, fds);
    }
    FirstsBelowCountIffPrefix(fds);
  }

  /** Commit from a zeroed start with descriptors [107, 107, 108]. */
  lemma CommitDedupGap(fb: DrmFb)
    ensures var c := Commit(ZeroData, fb, [107, 107, 108]);
      && c.response.numFds == 2
      && c.response.framebuffers[0].fdIndexes == [0, 0, 2, 0]
      && c.fbFds[0] == 107
      && c.fbFds[2] == 108
      && c.fbFds[1] == 0
  {
    var fds := [107, 107, 108];
    assert FirstOccurrence(fds, 0) == 0;
    assert FirstOccurrence(fds, 1) == 0;
    assert FirstOccurrence(fds, 2) == 2;
    assert Values(fds) == {107, 108} by {
      assert fds[..2] == [107, 107];
      assert fds[..2][..1] == [107];
    }
    var c := Commit(ZeroData, fb, fds);
    CommitRecord(ZeroData, fb, fds);
    assert c.response.framebuffers[0].fdIndexes == FdIndexes(ZeroQuad, fds, 0);
    assert c.fbFds == StoreFirsts(ZeroData.fbFds, fds, 0, 3);
    assert c.fbFds[1] == 0;
  }

  /** The counterexample: handles [7, 7, 8] from a zeroed start index slots [0, 0, 2] of a two-slot table. */
  lemma DedupIndexEscapesTable()
    ensures var fb := DrmFb(1, 64, 64, 0, 0, [7, 7, 8, 0], ZeroQuad, ZeroQuad);
      var r := AppendFramebuffer(ZeroData, fb, h => Some(h + 100));
      && r.status == 0
      && r.data.response.numFds == 2
      && r.data.response.framebuffers[0].fdIndexes == [0, 0, 2, 0]
      && r.data.fbFds[0] == 107
      && r.data.fbFds[2] == 108
      && r.data.fbFds[1] == 0
  {
    var fb := DrmFb(1, 64, 64, 0, 0, [7, 7, 8, 0], ZeroQuad, ZeroQuad);
    var toFd: Exporter := h => Some(h + 100);
    assert PlaneCount(fb.handles) == 3 by {
      assert fb.handles[3] == 0;
    }
    assert !IsDuplicate(ZeroData, 1);
    assert Succeeds(ZeroData, fb, toFd);
    AppendCommits(ZeroData, fb, toFd);
    assert Resolve(fb.handles, toFd).fds == [107, 107, 108];
    CommitDedupGap(fb);
  }

  /** A plane as the walk sees it: unreadable, or its fb_id and the framebuffer query's answer. */
  datatype PlaneEntry = Unreadable | Plane(fbId: int, fb: Option<DrmFb>)

  /** One plane of readDrmData: append when it shows a framebuffer that could be queried. */
  function VisitPlane(data: ResponseData, p: PlaneEntry, toFd: Exporter): (r: ResponseData)
    requires Valid(data)
    ensures Valid(r)
  {
    match p
    case Plane(fbId, Some(drmfb)) =>
      if fbId != 0 then AppendFramebuffer(data, drmfb, toFd).data else data
    case _ => data
  }

  /** The plane loop of readDrmData; the append status is ignored. */
  function ReadPlanes(data: ResponseData, planes: seq<PlaneEntry>, toFd: Exporter): (r: ResponseData)
    requires Valid(data)
    ensures Valid(r)
    ensures data.response.numFramebuffers <= r.response.numFramebuffers
    ensures data.response.numFds <= r.response.numFds
    ensures r.response.tag == data.response.tag
    ensures forall k :: 0 <= k < MaxFramebuffers ==>
      r.response.framebuffers[k].fbId == data.response.framebuffers[k].fbId
    decreases |planes|
  {
    if |planes| == 0 then data
    else ReadPlanes(VisitPlane(data, planes[0], toFd), planes[1..], toFd)
  }

  /** readDrmData: nothing happens when the plane list cannot be read. */
  function ReadDrmData(data: ResponseData, resources: Option<seq<PlaneEntry>>, toFd: Exporter): (r: ResponseData)
    requires Valid(data)
    ensures Valid(r)
    ensures resources.None? ==> r == data
    ensures forall k :: 0 <= k < MaxFramebuffers ==>
      r.response.framebuffers[k].fbId == data.response.framebuffers[k].fbId
  {
    match resources
    case None => data
    case Some(planes) => ReadPlanes(data, planes, toFd)
  }

  /** A plane append is not called for: unreadable, showing no framebuffer, or whose framebuffer query failed. */
  predicate Skipped(p: PlaneEntry) {
    p.Unreadable? || p.fbId == 0 || p.fb.None?
  }

  /** A skipped plane changes nothing; any other plane is one append whose status is dropped. */
  lemma VisitSkipsOrAppends(data: ResponseData, p: PlaneEntry, toFd: Exporter)
    requires Valid(data)
    ensures Skipped(p) ==> VisitPlane(data, p, toFd) == data
    ensures !Skipped(p) ==> VisitPlane(data, p, toFd) == AppendFramebuffer(data, p.fb.value, toFd).data
  {
  }

  /** A walk over skipped planes only leaves the response and the table as they were. */
  lemma {:induction false} ReadPlanesSkipsAll(data: ResponseData, planes: seq<PlaneEntry>, toFd: Exporter)
    requires Valid(data)
    requires forall k :: 0 <= k < |planes| ==> Skipped(planes[k])
    ensures ReadPlanes(data, planes, toFd) == data
    decreases |planes|
  {
    if |planes| > 0 {
      VisitSkipsOrAppends(data, planes[0], toFd);
      ReadPlanesSkipsAll(data, planes[1..], toFd);
    }
  }

  /** A plane list with one framebuffer-bearing plane amounts to one append. */
  lemma ReadSinglePlane(data: ResponseData, id: int, fb: DrmFb, toFd: Exporter)
    requires Valid(data) && id != 0
    ensures ReadDrmData(data, Some([Plane(id, Some(fb))]), toFd) == AppendFramebuffer(data, fb, toFd).data
  {
    var p := Plane(id, Some(fb));
    assert [p][1..] == [];
    assert ReadPlanes(data, [p], toFd) == ReadPlanes(VisitPlane(data, p, toFd), [], toFd);
  }

  /**
   * The walk never stops early: after any prefix of planes, whatever the
   * append statuses were, the rest is processed from the state reached.
   */
  lemma {:induction false} ReadPlanesSplit(data: ResponseData, a: seq<PlaneEntry>, b: seq<PlaneEntry>, toFd: Exporter)
    requires Valid(data)
    ensures ReadPlanes(data, a + b, toFd) == ReadPlanes(ReadPlanes(data, a, toFd), b, toFd)
    decreases |a|
  {
    if |a| == 0 {
      assert a + b == b;
    } else {
      assert (a + b)[0] == a[0];
      assert (a + b)[1..] == a[1..] + b;
      ReadPlanesSplit(VisitPlane(data, a[0], toFd), a[1..], b, toFd);
    }
  }

  /** All stored ids are zero, as in the zeroed start state. */
  predicate IdsAllZero(data: ResponseData) {
    forall k :: 0 <= k < MaxFramebuffers ==> data.response.framebuffers[k].fbId == 0
  }

  /**
   * Because no record's id is ever written, two planes showing the same
   * nonzero framebuffer are both recorded when stored ids are all zero.
   */
  lemma DuplicateIdNotSkipped(data: ResponseData, drmfb: DrmFb, toFd: Exporter)
    requires Valid(data) && IdsAllZero(data)
    requires data.response.numFramebuffers + 2 <= MaxFramebuffers
    requires drmfb.fbId != 0 && PlaneCount(drmfb.handles) > 0
    requires forall k :: 0 <= k < PlaneCount(drmfb.handles) ==> Exports(toFd, drmfb.handles[k])
    ensures var p := Plane(drmfb.fbId, Some(drmfb));
      ReadPlanes(data, [p, p], toFd).response.numFramebuffers == data.response.numFramebuffers + 2
  {
    var p := Plane(drmfb.fbId, Some(drmfb));
    AppendStatus(data, drmfb, toFd);
    var d1 := VisitPlane(data, p, toFd);
    assert IdsAllZero(d1);
    AppendStatus(d1, drmfb, toFd);
    var d2 := VisitPlane(d1, p, toFd);
    assert ReadPlanes(data, [p, p], toFd) == ReadPlanes(d1, [p], toFd);
    assert [p, p][1..] == [p];
    assert ReadPlanes(d1, [p], toFd) == ReadPlanes(d2, [], toFd);
  }

  /** What goes on the wire: the metadata, the control length and the descriptor block. */
  datatype Transmission = Transmission(response: Response, controlLen: nat, fds: seq<int>)

  /** The status returned and, when sendmsg succeeds, what it delivered. */
  datatype SendResult = SendResult(status: int, sent: Option<Transmission>)

  /**
   * responseSend. A socket name too long for sun_path, or a failed connect,
   * returns 0; once connected it returns 1 whether or not sendmsg succeeds.
   */
  function ResponseSend(sockname: string, data: ResponseData, connected: bool, sendOk: bool): (r: SendResult)
    requires Valid(data)
    ensures r.status == 0 || r.status == 1
    ensures r.status == 1 <==> |sockname| < SunPathSize && connected
    ensures r.sent.Some? <==> r.status == 1 && sendOk
    ensures r.sent.Some? ==>
      var t := r.sent.value;
      && t.response == data.response.(tag := Tag)
      && |t.fds| == data.response.numFds
      && (forall k :: 0 <= k < |t.fds| ==> t.fds[k] == data.fbFds[k])
      && t.controlLen == CmsgLen(FdPayloadBytes(|t.fds|))
  {
    if |sockname| >= SunPathSize then SendResult(0, None)
    else if !connected then SendResult(0, None)
    else
      var resp := data.response.(tag := Tag);
      var fdBytes := IntSize * resp.numFds;
      var t := Transmission(resp, CmsgLen(fdBytes), data.fbFds[..resp.numFds]);
      SendResult(1, if sendOk then Some(t) else None)
  }

  /**
   * The gap slot is sent on: for handles [7, 7, 8] the table's second entry
   * is still the 0 of the zeroed start, so the helper passes its own
   * descriptor 0 as the second descriptor.
   */
  lemma DedupGapSendsDescriptorZero(sockname: string)
    requires |sockname| < SunPathSize
    ensures var fb := DrmFb(1, 64, 64, 0, 0, [7, 7, 8, 0], ZeroQuad, ZeroQuad);
      var data := AppendFramebuffer(ZeroData, fb, h => Some(h + 100)).data;
      ResponseSend(sockname, data, true, true).sent.value.fds == [107, 0]
  {
    DedupIndexEscapesTable();
  }
}
