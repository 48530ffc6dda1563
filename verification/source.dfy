/**
 * The capture source's use of a received list (src/dmabuf.c): choosing the
 * framebuffer to import, the import parameters, closing descriptors, and
 * reporting the size. The active framebuffer is a field of the session.
 */
module Source {
  import opened Wrappers
  import opened Protocol
  import opened Receiver

  /** The state the source keeps: the received list and the active record, -1 for none. */
  datatype Session = Session(fbs: FbList, activeFb: int)

  /** A C array access the source performs stays inside the array, or it does not. */
  datatype Access<T> = InBounds(value: T) | OutOfBounds

  /** The active index is -1 or names one of the 16 record slots. */
  predicate SessionValid(s: Session) {
    s.activeFb == -1 || 0 <= s.activeFb < MaxFramebuffers
  }

  /** A newly created source: the given list, nothing active. */
  function NewSession(fbs: FbList): (s: Session)
    ensures SessionValid(s) && s.activeFb == -1
  {
    Session(fbs, -1)
  }

  /** The lookup loop from index `k`: it stops at a match or at `numFramebuffers`. */
  function ScanFrom(resp: Response, fbId: int, k: nat): (r: Access<nat>)
    requires k <= MaxFramebuffers
    requires forall m :: 0 <= m < k ==> resp.framebuffers[m].fbId != fbId
    ensures r.InBounds? <==>
      resp.numFramebuffers <= MaxFramebuffers
      || exists m :: k <= m < MaxFramebuffers && resp.framebuffers[m].fbId == fbId
    ensures r.InBounds? ==>
      || (k <= r.value < resp.numFramebuffers && r.value < MaxFramebuffers
          && resp.framebuffers[r.value].fbId == fbId
          && forall m :: 0 <= m < r.value ==> resp.framebuffers[m].fbId != fbId)
      || (r.value == (if resp.numFramebuffers <= k then k else resp.numFramebuffers)
          && forall m :: 0 <= m < resp.numFramebuffers && m < MaxFramebuffers ==>
               resp.framebuffers[m].fbId != fbId)
    decreases MaxFramebuffers - k
  {
    if resp.numFramebuffers <= k then InBounds(k)
    else if k == MaxFramebuffers then OutOfBounds
    else if resp.framebuffers[k].fbId == fbId then InBounds(k)
    else ScanFrom(resp, fbId, k + 1)
  }

  /** The parameters handed to texture import. */
  datatype ImportParams = ImportParams(
    width: int,
    height: int,
    fourcc: int,
    planes: int,
    fds: Quad,
    pitches: Quad,
    offsets: Quad,
    modifiers: Quad)

  /**
   * The import parameters for record `index`: all four planes' descriptors
   * are looked up through fd_indexes, and the record's single modifier is
   * repeated four times. An index outside the 16-slot table is an
   * out-of-bounds read.
   */
  function ImportParamsOf(fbs: FbList, index: nat): (r: Access<ImportParams>)
    requires index < MaxFramebuffers
    ensures var fb := fbs.resp.framebuffers[index];
      r.InBounds? <==> forall k :: 0 <= k < PlaneSlots ==> 0 <= fb.fdIndexes[k] < MaxFramebuffers
    ensures var fb := fbs.resp.framebuffers[index];
      r.InBounds? ==>
        && (forall k :: 0 <= k < PlaneSlots ==>
              r.value.fds[k] == fbs.fbFds[fb.fdIndexes[k]] && r.value.modifiers[k] == fb.modifier)
        && r.value.width == fb.width && r.value.height == fb.height
        && r.value.fourcc == fb.fourcc && r.value.planes == fb.planes
        && r.value.pitches == fb.pitches && r.value.offsets == fb.offsets
  {
    var fb := fbs.resp.framebuffers[index];
    var ix := fb.fdIndexes;
    if forall k :: 0 <= k < PlaneSlots ==> 0 <= ix[k] < MaxFramebuffers then
      var m := fb.modifier;
      InBounds(ImportParams(
        fb.width, fb.height, fb.fourcc, fb.planes,
        [fbs.fbFds[ix[0]], fbs.fbFds[ix[1]], fbs.fbFds[ix[2]], fbs.fbFds[ix[3]]],
        fb.pitches, fb.offsets, [m, m, m, m]))
    else
      OutOfBounds
  }

  /**
   * dmabuf_source_open: find the record, import it, and make it active only
   * when the texture is created. `createTexture` stands for the graphics
   * import. The source asserts that nothing is active on entry.
   */
  function Open(s: Session, fbId: int, createTexture: ImportParams -> bool): (r: Access<Session>)
    requires s.activeFb == -1
    ensures r.InBounds? ==> r.value.fbs == s.fbs && SessionValid(r.value)
    ensures r.InBounds? && r.value.activeFb != -1 ==>
      r.value.activeFb < s.fbs.resp.numFramebuffers || s.fbs.resp.numFramebuffers < 0
  {
    var resp := s.fbs.resp;
    match ScanFrom(resp, fbId, 0)
    case OutOfBounds => OutOfBounds
    case InBounds(index) =>
      if index == resp.numFramebuffers then InBounds(s)
      else
        match ImportParamsOf(s.fbs, index)
        case OutOfBounds => OutOfBounds
        case InBounds(params) =>
          if createTexture(params) then InBounds(s.(activeFb := index)) else InBounds(s)
  }

  /** Every record's descriptor indexes lie in the 16-slot table. */
  predicate IndexesInTable(resp: Response) {
    forall i, k :: 0 <= i < MaxFramebuffers && 0 <= k < PlaneSlots ==>
      0 <= resp.framebuffers[i].fdIndexes[k] < MaxFramebuffers
  }

  /**
   * For a list whose counts and indexes are in range, Open activates the
   * first record carrying `fbId` exactly when one exists and its texture is
   * created, and otherwise leaves the session as it was.
   */
  lemma OpenSelectsFirstMatch(s: Session, fbId: int, createTexture: ImportParams -> bool)
    requires s.activeFb == -1
    requires 0 <= s.fbs.resp.numFramebuffers <= MaxFramebuffers
    requires IndexesInTable(s.fbs.resp)
    ensures var r := Open(s, fbId, createTexture);
      var resp := s.fbs.resp;
      && r.InBounds?
      && (forall i ::
            (&& 0 <= i < resp.numFramebuffers
             && resp.framebuffers[i].fbId == fbId
             && (forall m :: 0 <= m < i ==> resp.framebuffers[m].fbId != fbId))
            ==> && (r.value.activeFb == i <==> createTexture(ImportParamsOf(s.fbs, i).value))
                && (!createTexture(ImportParamsOf(s.fbs, i).value) ==> r.value == s))
      && ((forall i :: 0 <= i < resp.numFramebuffers ==> resp.framebuffers[i].fbId != fbId) ==>
            r.value == s)
      && (r.value.activeFb == -1 || r.value.activeFb < resp.numFramebuffers)
  {
  }

  /**
   * With a negative record count the lookup loop never runs and stops at
   * index 0, which differs from the count: record 0 is imported and, when
   * its texture is created, activated without any id comparison.
   */
  lemma NegativeCountOpensRecordZero(s: Session, fbId: int, createTexture: ImportParams -> bool)
    requires s.activeFb == -1 && s.fbs.resp.numFramebuffers < 0
    requires forall k :: 0 <= k < PlaneSlots ==> 0 <= s.fbs.resp.framebuffers[0].fdIndexes[k] < MaxFramebuffers
    ensures ImportParamsOf(s.fbs, 0).InBounds?
    ensures Open(s, fbId, createTexture) ==
      InBounds(if createTexture(ImportParamsOf(s.fbs, 0).value) then s.(activeFb := 0) else s)
  {
  }

  /**
   * The ids the helper sends are all zero, so id 0 opens record 0 whenever
   * there is a record, and every other id finds nothing.
   */
  lemma ZeroIdsOpenFirstRecord(s: Session, fbId: int, createTexture: ImportParams -> bool)
    requires s.activeFb == -1
    requires 0 <= s.fbs.resp.numFramebuffers <= MaxFramebuffers
    requires IndexesInTable(s.fbs.resp)
    requires forall i :: 0 <= i < MaxFramebuffers ==> s.fbs.resp.framebuffers[i].fbId == 0
    ensures var r := Open(s, fbId, createTexture);
      && r.InBounds?
      && (fbId != 0 || s.fbs.resp.numFramebuffers == 0 ==> r.value == s)
      && (fbId == 0 && s.fbs.resp.numFramebuffers > 0 ==>
            (r.value.activeFb == 0 <==> createTexture(ImportParamsOf(s.fbs, 0).value)))
  {
    OpenSelectsFirstMatch(s, fbId, createTexture);
  }

  /** dmabuf_source_close: only the active index is reset; the table is kept. */
  function Close(s: Session): (r: Session)
    ensures r.fbs == s.fbs && r.activeFb == -1 && SessionValid(r)
  {
    s.(activeFb := -1)
  }

  /** The positive entries of `s`, in order: the descriptors `close` is called on. */
  function Positives(s: seq<int>): (r: seq<int>)
    ensures forall x :: x in r <==> x in s && x > 0
    ensures |r| <= |s|
  {
    if |s| == 0 then []
    else (if s[0] > 0 then [s[0]] else []) + Positives(s[1..])
  }

  function CloseFrom(fbs: FbList, i: nat): (r: Access<seq<int>>)
    requires i <= MaxFramebuffers
    ensures r.InBounds? <==> fbs.resp.numFramebuffers <= MaxFramebuffers
    ensures r.InBounds? && i <= fbs.resp.numFramebuffers ==>
      r.value == Positives(fbs.fbFds[i..fbs.resp.numFramebuffers])
    ensures r.InBounds? && fbs.resp.numFramebuffers < i ==> r.value == []
    decreases MaxFramebuffers - i
  {
    if fbs.resp.numFramebuffers <= i then InBounds([])
    else if i == MaxFramebuffers then OutOfBounds
    else
      var fd := fbs.fbFds[i];
      match CloseFrom(fbs, i + 1)
      case OutOfBounds => OutOfBounds
      case InBounds(rest) =>
        assert fbs.fbFds[i..fbs.resp.numFramebuffers][1..] == fbs.fbFds[i + 1..fbs.resp.numFramebuffers];
        InBounds((if fd > 0 then [fd] else []) + rest)
  }

  /**
   * dmabuf_source_close_fds: the descriptors closed, in order. The loop runs
   * over the record count, not the descriptor count, and does not clear the
   * table.
   */
  function CloseFds(fbs: FbList): (r: Access<seq<int>>)
    ensures r.InBounds? <==> fbs.resp.numFramebuffers <= MaxFramebuffers
    ensures r.InBounds? ==>
      r.value == Positives(fbs.fbFds[..if fbs.resp.numFramebuffers < 0 then 0 else fbs.resp.numFramebuffers])
  {
    CloseFrom(fbs, 0)
  }

  /**
   * With one record but two received descriptors, closing releases only the
   * first: the second leaks.
   */
  lemma CloseFdsLeaksExtraDescriptor(resp: Response)
    requires resp.numFramebuffers == 1 && resp.numFds == 2
    ensures var fbs := FbList(resp, [5, 6] + seq(14, _ => -1));
      CloseFds(fbs) == InBounds([5]) && 6 !in CloseFds(fbs).value
  {
    var fbs := FbList(resp, [5, 6] + seq(14, _ => -1));
    assert fbs.fbFds[..1] == [5];
    assert Positives([5]) == [5] by {
      assert [5][1..] == [];
    }
  }

  /**
   * dmabuf_source_update: close the descriptors, close, then open the chosen
   * framebuffer. The setting is a 64-bit integer, and passing it as
   * open's `uint32_t` id keeps only its low 32 bits.
   */
  datatype UpdateResult = UpdateResult(closed: seq<int>, session: Session)

  function Update(s: Session, setting: int, createTexture: ImportParams -> bool): (r: Access<UpdateResult>)
    ensures r.InBounds? ==> CloseFds(s.fbs) == InBounds(r.value.closed) && r.value.session.fbs == s.fbs
    ensures r.InBounds? ==> Open(Close(s), ToU32(setting), createTexture) == InBounds(r.value.session)
    ensures r.InBounds? ==> SessionValid(r.value.session)
  {
    match CloseFds(s.fbs)
    case OutOfBounds => OutOfBounds
    case InBounds(closed) =>
      match Open(Close(s), ToU32(setting), createTexture)
      case OutOfBounds => OutOfBounds
      case InBounds(next) => InBounds(UpdateResult(closed, next))
  }

  /**
   * Settings that agree in their low 32 bits select the same framebuffer.
   * With the all-zero ids the helper sends, 2^32 opens record 0 like 0 does,
   * and -1 looks up 0xFFFFFFFF and opens nothing.
   */
  lemma UpdateTruncatesSetting(s: Session, setting: int, createTexture: ImportParams -> bool)
    ensures Update(s, setting, createTexture) == Update(s, setting + U32Modulus, createTexture)
    ensures Update(s, setting, createTexture) == Update(s, ToU32(setting), createTexture)
  {
    assert ToU32(setting + U32Modulus) == ToU32(setting);
    assert ToU32(ToU32(setting)) == ToU32(setting);
  }

  lemma WideSettingOpensRecordZero(s: Session, createTexture: ImportParams -> bool)
    requires 0 < s.fbs.resp.numFramebuffers <= MaxFramebuffers
    requires IndexesInTable(s.fbs.resp)
    requires forall i :: 0 <= i < MaxFramebuffers ==> s.fbs.resp.framebuffers[i].fbId == 0
    ensures var u := Update(s, U32Modulus, createTexture);
      u.InBounds? && (u.value.session.activeFb == 0 <==> createTexture(ImportParamsOf(s.fbs, 0).value))
    ensures var u := Update(s, -1, createTexture);
      u.InBounds? && u.value.session == Close(s)
  {
    ZeroIdsOpenFirstRecord(Close(s), ToU32(U32Modulus), createTexture);
    ZeroIdsOpenFirstRecord(Close(s), ToU32(-1), createTexture);
  }

  /**
   * The reopen in an update reads the table the update has just closed: every
   * positive descriptor the activated record imports through an index below
   * the record count is among the descriptors closed.
   */
  lemma UpdateImportsClosed(s: Session, setting: int, createTexture: ImportParams -> bool)
    requires Update(s, setting, createTexture).InBounds?
    ensures var u := Update(s, setting, createTexture).value;
      var i := u.session.activeFb;
      i != -1 ==>
        && ImportParamsOf(s.fbs, i).InBounds?
        && forall k :: 0 <= k < PlaneSlots ==>
             var ix := s.fbs.resp.framebuffers[i].fdIndexes[k];
             var fd := ImportParamsOf(s.fbs, i).value.fds[k];
             0 <= ix < s.fbs.resp.numFramebuffers && fd > 0 ==> fd in u.closed
  {
    var u := Update(s, setting, createTexture).value;
    var i := u.session.activeFb;
    var n := s.fbs.resp.numFramebuffers;
    if i != -1 {
      assert n <= MaxFramebuffers;
      forall k | 0 <= k < PlaneSlots
        ensures var ix := s.fbs.resp.framebuffers[i].fdIndexes[k];
          var fd := ImportParamsOf(s.fbs, i).value.fds[k];
          0 <= ix < n && fd > 0 ==> fd in u.closed
      {
        var ix := s.fbs.resp.framebuffers[i].fdIndexes[k];
        if 0 <= ix < n {
          assert s.fbs.fbFds[..n][ix] == s.fbs.fbFds[ix];
        }
      }
    }
  }

  /**
   * A second update closes the very descriptors the first one closed: the
   * table is never cleared, so each positive entry is closed again.
   */
  lemma UpdateTwiceClosesTwice(s: Session, setting: int, createTexture: ImportParams -> bool)
    requires Update(s, setting, createTexture).InBounds?
    ensures var first := Update(s, setting, createTexture).value;
      var second := Update(first.session, setting, createTexture);
      second.InBounds? ==> second.value.closed == first.closed
  {
  }

  /** dmabuf_source_get_width: 0 with nothing active, else the active record's width as uint32_t. */
  function Width(s: Session): (w: nat)
    requires SessionValid(s)
    ensures w < U32Modulus
    ensures s.activeFb == -1 ==> w == 0
  {
    if s.activeFb < 0 then 0 else ToU32(s.fbs.resp.framebuffers[s.activeFb].width)
  }

  /** dmabuf_source_get_height, likewise. */
  function Height(s: Session): (h: nat)
    requires SessionValid(s)
    ensures h < U32Modulus
    ensures s.activeFb == -1 ==> h == 0
  {
    if s.activeFb < 0 then 0 else ToU32(s.fbs.resp.framebuffers[s.activeFb].height)
  }

  /**
   * The reported size follows the session: zero after Close, and after an
   * Open that activated a record, that record's width and height.
   */
  lemma SizeFollowsSession(s: Session, fbId: int, createTexture: ImportParams -> bool)
    requires s.activeFb == -1
    ensures Width(Close(s)) == 0 && Height(Close(s)) == 0
    ensures var r := Open(s, fbId, createTexture);
      r.InBounds? && r.value.activeFb != -1 ==>
        var fb := s.fbs.resp.framebuffers[r.value.activeFb];
        && Width(r.value) == ToU32(fb.width)
        && Height(r.value) == ToU32(fb.height)
        && createTexture(ImportParamsOf(s.fbs, r.value.activeFb).value)
  {
  }
}
