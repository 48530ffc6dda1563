/**
 * The receiving side of dmabuf_source_receive_framebuffers (src/dmabuf.c):
 * socket and helper paths, the checks on the received message, the copy of
 * the descriptors, and the bounded wait for the helper to exit. Socket,
 * fork, select, accept, recvmsg and waitpid results are inputs.
 */
module Receiver {
  import opened Wrappers
  import opened Protocol

  /** The socket's name inside the module data directory. */
  const SocketFilename: string := "/obs-kmsgrab-send.sock"
  /** The helper binary, next to the plugin binary. */
  const SendBinaryName: string := "linux-kmsgrab-send"

  /**
   * The socket path: the module data directory followed by the socket name,
   * or None when the guard finds it too long for sun_path.
   */
  function SocketPath(modulePath: string): (r: Option<string>)
    ensures r.Some? <==> |modulePath| + |SocketFilename| + 1 < SunPathSize
    ensures r.Some? ==>
      && |r.value| == |modulePath| + |SocketFilename|
      && |r.value| + 1 < SunPathSize
      && r.value[..|modulePath|] == modulePath
      && r.value[|modulePath|..] == SocketFilename
  {
    if |modulePath| + |SocketFilename| + 1 >= SunPathSize then None
    else Some(modulePath + SocketFilename)
  }

  /** Length of the prefix of `p` up to and including its last '/', or 0 without one. */
  function DirPrefixLen(p: string): (k: nat)
    ensures k <= |p|
    ensures k > 0 ==> p[k - 1] == '/'
    ensures forall i :: k <= i < |p| ==> p[i] != '/'
  {
    if |p| == 0 then 0
    else if p[|p| - 1] == '/' then |p|
    else DirPrefixLen(p[..|p| - 1])
  }

  /** The helper binary's path: the plugin's directory (with its '/') and the helper's name. */
  function HelperPath(pluginPath: string): string {
    pluginPath[..DirPrefixLen(pluginPath)] + SendBinaryName
  }

  /** The three properties that pin down DirPrefixLen. */
  lemma DirPrefixLenUnique(p: string, k: nat)
    requires k <= |p|
    requires k > 0 ==> p[k - 1] == '/'
    requires forall i :: k <= i < |p| ==> p[i] != '/'
    ensures DirPrefixLen(p) == k
  {
  }

  /** Appending a name without '/' to a directory prefix keeps that prefix as the directory. */
  lemma DirPrefixLenOfJoin(dir: string, name: string)
    requires |dir| == 0 || dir[|dir| - 1] == '/'
    requires forall i :: 0 <= i < |name| ==> name[i] != '/'
    ensures DirPrefixLen(dir + name) == |dir|
  {
    var r := dir + name;
    assert forall i :: |dir| <= i < |r| ==> r[i] == name[i - |dir|];
    DirPrefixLenUnique(r, |dir|);
  }

  /**
   * The helper lives in the plugin's directory: the plugin path's text up to
   * its last '/' followed by the helper's name.
   */
  lemma HelperPathSibling(pluginPath: string)
    ensures var k := DirPrefixLen(pluginPath);
      var r := HelperPath(pluginPath);
      && r[..k] == pluginPath[..k]
      && r[k..] == SendBinaryName
      && (k == 0 || r[k - 1] == '/')
      && (forall i :: k <= i < |pluginPath| ==> pluginPath[i] != '/')
  {
    var k := DirPrefixLen(pluginPath);
    var r := HelperPath(pluginPath);
    assert r[..k] == pluginPath[..k];
    assert r[k..] == SendBinaryName;
  }

  /** Without any '/' in the plugin path the helper path is the bare name. */
  lemma HelperPathBareName(pluginPath: string)
    requires forall i :: 0 <= i < |pluginPath| ==> pluginPath[i] != '/'
    ensures HelperPath(pluginPath) == SendBinaryName
  {
    DirPrefixLenUnique(pluginPath, 0);
  }

  /** The helper path of the helper path is itself: the directory is kept, the name replaced by itself. */
  lemma HelperPathIdempotent(pluginPath: string)
    ensures HelperPath(HelperPath(pluginPath)) == HelperPath(pluginPath)
  {
    var k := DirPrefixLen(pluginPath);
    var dir := pluginPath[..k];
    var r := HelperPath(pluginPath);
    assert r == dir + SendBinaryName;
    assert forall i :: 0 <= i < |SendBinaryName| ==> SendBinaryName[i] != '/';
    DirPrefixLenOfJoin(dir, SendBinaryName);
    assert r[..|dir|] == dir;
  }

  /** A fixed array of 16 descriptor slots. */
  type FdSlots = s: seq<int> | |s| == MaxFramebuffers witness seq(16, _ => -1)

  /** dmabuf_source_fblist_t: the received response and its 16-slot descriptor table. */
  datatype FbList = FbList(resp: Response, fbFds: FdSlots)

  /** The list as a freshly created source holds it: zeroed, descriptors -1. */
  const EmptyList: FbList := FbList(ZeroResponse, seq(16, _ => -1))

  /**
   * sizeof(cmsg_buf) in the receive loop: four times CMSG_SPACE of sixteen
   * ints. The code stores it in `cmsg_len` before calling recvmsg.
   */
  const ControlBufferLen: nat := 4 * (CmsgHeaderLen + IntSize * MaxFramebuffers)
  /** The most descriptors one SCM_RIGHTS header fits into that buffer. */
  const MaxDeliveredFds: nat := (ControlBufferLen - CmsgHeaderLen) / IntSize

  /**
   * What one recvmsg produces: its return value, the bytes it left in the
   * response buffer, the `cmsg_len` the code reads back afterwards, and the
   * descriptors the kernel installed.
   */
  datatype Delivery = Delivery(recvd: int, response: Response, controlLen: int, fds: seq<int>)

  datatype ReceiveError = NothingReceived | SizeMismatch | TagMismatch | FdCountMismatch

  /**
   * Accepted with the descriptors copied; rejected by a check; or accepted
   * with a count the copy cannot honour. A count above 16, or a negative one
   * once converted to `size_t`, runs past the 16-slot table. A count above the
   * number delivered leaves the slots past the delivered descriptors
   * indeterminate. Either way only the stored response is known afterwards.
   */
  datatype ReceiveOutcome =
    | Accepted(list: FbList)
    | Rejected(error: ReceiveError, list: FbList)
    | CopyOverrun(resp: Response)

  /** The list after the receive, or None once a copy that was not honoured has left it undefined. */
  function ListAfter(o: ReceiveOutcome): Option<FbList> {
    if o.CopyOverrun? then None else Some(o.list)
  }

  /** The response stored by the receive, whatever the outcome. */
  function ResponseAfter(o: ReceiveOutcome): Response {
    if o.CopyOverrun? then o.resp else o.list.resp
  }

  /** The `retval` each outcome leaves. */
  function Retval(o: ReceiveOutcome): int {
    if o.Rejected? then 0 else 1
  }

  /** The iovec length the receive loop sets, which the size check then compares. */
  const IovLen: nat := ResponseSize

  /** The fd-count check: the control length is that of `numFds` descriptors. */
  predicate FdCountMatches(d: Delivery) {
    d.controlLen == CmsgLen(FdPayloadBytes(d.response.numFds))
  }

  /**
   * The receive loop's single pass: recvmsg writes straight into the list's
   * response, then the checks run in order, then the descriptors are copied.
   * Nothing bounds `numFds` before the copy.
   */
  function Receive(list: FbList, d: Delivery): (r: ReceiveOutcome)
    ensures Retval(r) == 1 <==> d.recvd > 0 && d.response.tag == Tag && FdCountMatches(d)
    ensures r.Rejected? ==>
      r.error == (if d.recvd <= 0 then NothingReceived
                  else if d.response.tag != Tag then TagMismatch
                  else FdCountMismatch)
    ensures ResponseAfter(r) == (if d.recvd > 0 then d.response else list.resp)
    ensures r.Accepted? <==>
      Retval(r) == 1 && 0 <= d.response.numFds <= MaxFramebuffers && d.response.numFds <= |d.fds|
    ensures r.Accepted? ==> forall k :: 0 <= k < MaxFramebuffers ==>
      r.list.fbFds[k] == if k < d.response.numFds then d.fds[k] else list.fbFds[k]
    ensures r.Rejected? ==> r.list.fbFds == list.fbFds
  {
    if d.recvd <= 0 then Rejected(NothingReceived, list)
    else
      var stored := list.(resp := d.response);
      var n := d.response.numFds;
      if IovLen != ResponseSize then Rejected(SizeMismatch, stored)
      else if d.response.tag != Tag then Rejected(TagMismatch, stored)
      else if !FdCountMatches(d) then Rejected(FdCountMismatch, stored)
      else if 0 <= n <= MaxFramebuffers && n <= |d.fds| then
        Accepted(stored.(fbFds := d.fds[..n] + list.fbFds[n..]))
      else
        CopyOverrun(d.response)
  }

  /**
   * The `cmsg_len` Linux leaves: the length of the SCM_RIGHTS header it
   * wrote for the installed descriptors, or, when no descriptor travels and
   * no header is written, the buffer size the code stored beforehand.
   */
  predicate KernelConsistent(d: Delivery) {
    && |d.fds| <= MaxDeliveredFds
    && d.controlLen == if |d.fds| == 0 then ControlBufferLen else CmsgLen(FdPayloadBytes(|d.fds|))
  }

  /**
   * With a consistent kernel report, the fd-count check passes exactly when
   * `numFds` is the number of descriptors delivered, except that with none
   * delivered it passes only for a count of 76, whose control length equals
   * the untouched buffer size. The copy overruns exactly when the check
   * passes with more than 16, or with 76 and nothing delivered.
   */
  lemma ReceiveCountsAgree(list: FbList, d: Delivery)
    requires KernelConsistent(d) && IsI32(d.response.numFds)
    ensures FdCountMatches(d) <==>
      d.response.numFds == if |d.fds| == 0 then MaxDeliveredFds else |d.fds|
    ensures Receive(list, d).CopyOverrun? <==>
      && d.recvd > 0 && d.response.tag == Tag
      && ((|d.fds| == 0 && d.response.numFds == MaxDeliveredFds)
          || (|d.fds| > MaxFramebuffers && d.response.numFds == |d.fds|))
  {
    if |d.fds| == 0 {
      FdCountMatchUnique(d.response.numFds, MaxDeliveredFds);
    } else {
      FdCountMatchUnique(d.response.numFds, |d.fds|);
    }
  }

  /** With no descriptor delivered, a count of 0 fails the fd-count check. */
  lemma NoDescriptorsRejected(list: FbList, d: Delivery)
    requires KernelConsistent(d) && |d.fds| == 0
    requires d.recvd > 0 && d.response.tag == Tag && d.response.numFds == 0
    ensures Receive(list, d) == Rejected(FdCountMismatch, list.(resp := d.response))
  {
    assert CmsgLen(FdPayloadBytes(0)) == CmsgHeaderLen;
  }

  /**
   * Acceptance does not bound the record count: a kernel-consistent
   * one-descriptor message declaring more than 16 records is accepted and
   * stored as it came.
   */
  lemma AcceptedRecordCountUnbounded(list: FbList, d: Delivery)
    requires KernelConsistent(d) && |d.fds| == 1
    requires d.recvd > 0 && d.response.tag == Tag && d.response.numFds == 1
    requires d.response.numFramebuffers > MaxFramebuffers
    ensures Receive(list, d).Accepted?
    ensures Receive(list, d).list.resp.numFramebuffers == d.response.numFramebuffers > MaxFramebuffers
  {
    ReceiveCountsAgree(list, d);
  }

  /** ECHILD on Linux. */
  const ECHILD: int := 10
  /** The reap loop polls at most this many times. */
  const MaxPolls: nat := 10

  /** The status waitpid reports; WEXITSTATUS is `code`. A zero status is Exited(0). */
  datatype WaitStatus = Exited(code: int) | Signaled(signal: int) | Stopped(signal: int)

  /** One non-blocking waitpid: the child's pid with a status, nothing yet, or -1 with errno. */
  datatype PollOutcome = ChildChanged(status: WaitStatus) | NoChange | WaitFailed(errno: int)

  /** The poll ends the wait: the child exited, or there is no child to wait for. */
  predicate EndsWait(o: PollOutcome) {
    match o
    case ChildChanged(status) => status.Exited?
    case WaitFailed(errno) => errno == ECHILD
    case NoChange => false
  }

  /** Whether the exit was seen, after how many polls, and the nonzero status that gets logged. */
  datatype ReapOutcome = ReapOutcome(exited: bool, polls: nat, loggedStatus: Option<int>)

  /**
   * The bounded reap loop: poll `i` answers `poll(i)`; it stops at the first
   * poll that ends the wait and gives up after ten.
   */
  method Reap(poll: nat -> PollOutcome) returns (r: ReapOutcome)
    ensures 1 <= r.polls <= MaxPolls
    ensures r.exited <==> exists k :: 0 <= k < MaxPolls && EndsWait(poll(k))
    ensures r.exited ==> EndsWait(poll(r.polls - 1))
    ensures forall k :: 0 <= k < r.polls - 1 ==> !EndsWait(poll(k))
    ensures !r.exited ==> r.polls == MaxPolls
    ensures r.loggedStatus.Some? <==>
      r.exited && poll(r.polls - 1).ChildChanged? && poll(r.polls - 1).status.code != 0
    ensures r.loggedStatus.Some? ==> r.loggedStatus.value == poll(r.polls - 1).status.code
  {
    var i := 0;
    while i < MaxPolls
      invariant 0 <= i <= MaxPolls
      invariant forall k :: 0 <= k < i ==> !EndsWait(poll(k))
    {
      match poll(i) {
        case ChildChanged(status) =>
          if status.Exited? {
            var logged := if status.code != 0 then Some(status.code) else None;
            return ReapOutcome(true, i + 1, logged);
          }
        case WaitFailed(errno) =>
          if errno == ECHILD {
            return ReapOutcome(true, i + 1, None);
          }
        case NoChange =>
      }
      i := i + 1;
    }
    return ReapOutcome(false, MaxPolls, None);
  }

  /** How the bounded select() wait on the listening socket ended. */
  datatype WaitOutcome = Connectable | TimedOut | SelectFailed

  /** The outcome of every external call the receive sequence makes. */
  datatype Environment = Environment(
    modulePath: string,
    moduleDirReady: bool,
    pluginPath: string,
    helperExists: bool,
    bindOk: bool,
    listenOk: bool,
    forkOk: bool,
    wait: WaitOutcome,
    acceptOk: bool,
    delivery: Delivery,
    poll: nat -> PollOutcome)

  /** The program the child executes and its argument vector. */
  datatype Invocation = Invocation(program: string, argv: seq<string>)

  /**
   * What the receive sequence returns: retval, the list (None once a copy
   * that was not honoured left it undefined), whether the summary loop after
   * an accepted receive read past the 16 records and table slots, the child
   * it started, and the reap.
   */
  datatype Fetch = Fetch(
    retval: int,
    list: Option<FbList>,
    summaryOverrun: bool,
    spawned: Option<Invocation>,
    reap: Option<ReapOutcome>)

  /** Every step before fork succeeds. */
  predicate ReadyToSpawn(env: Environment) {
    && env.moduleDirReady
    && SocketPath(env.modulePath).Some?
    && env.helperExists
    && env.bindOk
    && env.listenOk
  }

  /** The sequence gets as far as recvmsg. */
  predicate ReachesReceive(env: Environment) {
    ReadyToSpawn(env) && env.forkOk && env.wait == Connectable && env.acceptOk
  }

  /** The helper's command line, directly or through pkexec when built with USE_PKEXEC. */
  function HelperInvocation(helper: string, driFilename: string, socketPath: string, usePkexec: bool): Invocation {
    if usePkexec then Invocation("pkexec", ["pkexec", helper, driFilename, socketPath])
    else Invocation(helper, [helper, driFilename, socketPath])
  }

  /**
   * dmabuf_source_receive_framebuffers. Only a message that passes every
   * check sets retval; once the child is forked it is always reaped, and the
   * reap's outcome never changes retval.
   */
  method ReceiveFramebuffers(driFilename: string, list: FbList, env: Environment, usePkexec: bool)
    returns (f: Fetch)
    ensures f.retval == 1 <==> ReachesReceive(env) && Retval(Receive(list, env.delivery)) == 1
    ensures f.retval == 0 || f.retval == 1
    ensures f.list == if ReachesReceive(env) then ListAfter(Receive(list, env.delivery)) else Some(list)
    ensures f.summaryOverrun <==> f.retval == 1 && env.delivery.response.numFramebuffers > MaxFramebuffers
    ensures f.spawned.Some? <==> ReadyToSpawn(env) && env.forkOk
    ensures f.spawned.Some? ==>
      f.spawned.value == HelperInvocation(HelperPath(env.pluginPath), driFilename,
                                          SocketPath(env.modulePath).value, usePkexec)
    ensures f.reap.Some? <==> f.spawned.Some?
    ensures f.reap.Some? ==>
      var r := f.reap.value;
      && 1 <= r.polls <= MaxPolls
      && (r.exited <==> exists k :: 0 <= k < MaxPolls && EndsWait(env.poll(k)))
      && (forall k :: 0 <= k < r.polls - 1 ==> !EndsWait(env.poll(k)))
      && (r.exited ==> EndsWait(env.poll(r.polls - 1)))
      && (!r.exited ==> r.polls == MaxPolls)
      && (r.loggedStatus.Some? <==>
            r.exited && env.poll(r.polls - 1).ChildChanged? && env.poll(r.polls - 1).status.code != 0)
      && (r.loggedStatus.Some? ==> r.loggedStatus.value == env.poll(r.polls - 1).status.code)
  {
    if !env.moduleDirReady {
      return Fetch(0, Some(list), false, None, None);
    }
    var sockPath := SocketPath(env.modulePath);
    if sockPath.None? {
      return Fetch(0, Some(list), false, None, None);
    }
    var helper := HelperPath(env.pluginPath);
    if !env.helperExists || !env.bindOk || !env.listenOk || !env.forkOk {
      return Fetch(0, Some(list), false, None, None);
    }
    var invocation := HelperInvocation(helper, driFilename, sockPath.value, usePkexec);
    var retval := 0;
    var received := Some(list);
    var summaryOverrun := false;
    if env.wait == Connectable && env.acceptOk {
      var outcome := Receive(list, env.delivery);
      retval := Retval(outcome);
      received := ListAfter(outcome);
      // The summary logs framebuffers[i] and fb_fds[i] for every i below the
      // received record count, which nothing compares with 16.
      summaryOverrun := retval == 1 && ResponseAfter(outcome).numFramebuffers > MaxFramebuffers;
    }
    var reaped := Reap(env.poll);
    return Fetch(retval, received, summaryOverrun, Some(invocation), Some(reaped));
  }
}
