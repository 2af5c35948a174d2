/**
 * getProcessStatus, on both platforms: a decision table from the reply of
 * the operating system's status query to a return code (1 running, 0 ended,
 * -1 the query failed) and, when the caller passes a non-NULL `exitCode`
 * pointer, the value stored through it.
 *
 * The query itself (waitpid with WNOHANG, GetExitCodeProcess) is not
 * modelled: its reply is a parameter. On POSIX the reply's status word is
 * given already decoded by the wait macros.
 */
module ProcessStatus {
  import opened Wrappers

  /** The return codes of getProcessStatus. */
  const Running: int := 1
  const Ended: int := 0
  const QueryFailed: int := -1

  /**
   * What one call hands back: the return code, and what it stores through
   * `exitCode` (`None` when the pointer is NULL and nothing is stored).
   */
  datatype Poll = Poll(returnCode: int, written: Option<int>)

  /** The store `if (exitCode != NULL) *exitCode = v;`. */
  function Store(hasExitCode: bool, v: int): (w: Option<int>)
    ensures w.Some? <==> hasExitCode
    ensures w.Some? ==> w.value == v
  {
    if hasExitCode then Some(v) else None
  }

  /** The value a call stored through `exitCode`, or 0 when it stored nothing. */
  function ExitCode(p: Poll): int
  {
    if p.written.Some? then p.written.value else 0
  }

  // ---------------------------------------------------------------------
  // POSIX: waitpid(p, &status, WNOHANG)
  // ---------------------------------------------------------------------

  /**
   * The child's state as the wait macros decode the status word: WIFEXITED
   * (with the raw word, which the code also compares with 0, and
   * WEXITSTATUS), WIFSIGNALED (with WTERMSIG), or neither.
   */
  datatype ChildState =
    | Exited(rawStatus: int, exitStatus: int)
    | Signaled(termSignal: int)
    | OtherState

  /** waitpid's result, and the decoded status when that result is positive. */
  datatype WaitReply = WaitReply(result: int, state: ChildState)

  /** The POSIX getProcessStatus. */
  function PosixStatus(reply: WaitReply, hasExitCode: bool): (r: Poll)
    ensures r.returnCode == Running <==> reply.result == 0
    ensures r.returnCode == QueryFailed <==> reply.result < 0
    ensures r.returnCode == Ended <==> reply.result > 0
    ensures r.written.Some? <==> hasExitCode
    ensures hasExitCode && reply.result <= 0 ==> r.written == Some(0)
  {
    if reply.result == 0 then
      Poll(Running, Store(hasExitCode, 0))
    else if reply.result < 0 then
      Poll(QueryFailed, Store(hasExitCode, 0))
    else
      match reply.state
      case Exited(rawStatus, exitStatus) =>
        if rawStatus == 0 then Poll(Ended, Store(hasExitCode, 0))
        else Poll(Ended, Store(hasExitCode, exitStatus))
      case Signaled(termSignal) =>
        Poll(Ended, Store(hasExitCode, termSignal))
      case OtherState =>
        Poll(Ended, Store(hasExitCode, 0))
  }

  /** A reaped child: the code is the exit status, the signal number, or 0. */
  lemma PosixReapedExitCode(reply: WaitReply)
    requires reply.result > 0
    ensures reply.state.Exited? && reply.state.rawStatus == 0 ==>
      PosixStatus(reply, true).written == Some(0)
    ensures reply.state.Exited? && reply.state.rawStatus != 0 ==>
      PosixStatus(reply, true).written == Some(reply.state.exitStatus)
    ensures reply.state.Signaled? ==>
      PosixStatus(reply, true).written == Some(reply.state.termSignal)
    ensures reply.state.OtherState? ==> PosixStatus(reply, true).written == Some(0)
  {
  }

  /**
   * A decoding the wait macros can produce: a zero status word means a
   * normal exit with status 0, and an exit status fits in 8 bits.
   */
  predicate WellDecoded(s: ChildState)
  {
    s.Exited? ==> (s.rawStatus == 0 ==> s.exitStatus == 0) && 0 <= s.exitStatus < 256
  }

  /**
   * For a well-decoded normal exit the `status == 0` test changes nothing:
   * the code stored is the exit status, between 0 and 255.
   */
  lemma PosixExitedReportsExitStatus(result: int, s: ChildState)
    requires result > 0 && s.Exited? && WellDecoded(s)
    ensures PosixStatus(WaitReply(result, s), true) == Poll(Ended, Some(s.exitStatus))
    ensures 0 <= ExitCode(PosixStatus(WaitReply(result, s), true)) < 256
  {
  }

  /**
   * The caller cannot tell a child killed by signal n from one that exited
   * with status n: both read as ended with code n.
   */
  lemma PosixSignalLooksLikeExit(result: int, raw: int, n: int)
    requires result > 0 && raw != 0
    ensures PosixStatus(WaitReply(result, Signaled(n)), true) ==
      PosixStatus(WaitReply(result, Exited(raw, n)), true)
  {
  }

  /** An unusual state (stopped, say) reads like a clean exit. */
  lemma PosixOtherLooksLikeCleanExit(result: int)
    requires result > 0
    ensures PosixStatus(WaitReply(result, OtherState), true) ==
      PosixStatus(WaitReply(result, Exited(0, 0)), true)
  {
  }

  /** Passing NULL for `exitCode` stores nothing and leaves the return code as it is. */
  lemma PosixNullPointer(reply: WaitReply)
    ensures PosixStatus(reply, false) == Poll(PosixStatus(reply, true).returnCode, None)
  {
  }

  // ---------------------------------------------------------------------
  // Windows: GetExitCodeProcess(p, &code)
  // ---------------------------------------------------------------------

  /** The exit code GetExitCodeProcess reports while the process has not ended. */
  const StillActive: int := 259

  /** 2^32, the number of DWORD values. */
  const DwordModulus: int := 0x1_0000_0000

  /** An unsigned 32-bit DWORD. */
  type Dword = x: int | 0 <= x < 0x1_0000_0000

  /** The C cast `(int) code` of a DWORD: two's-complement reinterpretation. */
  function AsInt32(code: Dword): (r: int)
    ensures -0x8000_0000 <= r < 0x8000_0000
    ensures (r - code) % DwordModulus == 0
    ensures code < 0x8000_0000 ==> r == code
  {
    if code < 0x8000_0000 then code else code - DwordModulus
  }

  /** The two's-complement encoding of the 32-bit int `v` as a DWORD. */
  function FromInt32(v: int): (d: Dword)
    requires -0x8000_0000 <= v < 0x8000_0000
    ensures (d - v) % DwordModulus == 0
  {
    if v >= 0 then v else v + DwordModulus
  }

  /** The cast loses nothing: it and its inverse undo each other. */
  lemma AsInt32RoundTrip(code: Dword, v: int)
    requires -0x8000_0000 <= v < 0x8000_0000
    ensures FromInt32(AsInt32(code)) == code
    ensures AsInt32(FromInt32(v)) == v
  {
  }

  /** Distinct DWORD codes are stored as distinct ints. */
  lemma AsInt32Injective(a: Dword, b: Dword)
    requires AsInt32(a) == AsInt32(b)
    ensures a == b
  {
    AsInt32RoundTrip(a, 0);
    AsInt32RoundTrip(b, 0);
  }

  /** GetExitCodeProcess's BOOL result and the code it wrote. */
  datatype ExitCodeReply = ExitCodeReply(succeeded: bool, code: Dword)

  /** The Windows getProcessStatus. */
  function WindowsStatus(reply: ExitCodeReply, hasExitCode: bool): (r: Poll)
    ensures r.returnCode == QueryFailed <==> !reply.succeeded
    ensures r.returnCode == Running <==> reply.succeeded && reply.code == StillActive
    ensures r.returnCode == Ended <==> reply.succeeded && reply.code != StillActive
    ensures r.written.Some? <==> hasExitCode
    ensures hasExitCode && !reply.succeeded ==> r.written == Some(-1)
    ensures hasExitCode && r.returnCode == Running ==> r.written == Some(0)
  {
    if reply.succeeded then
      if reply.code == StillActive then
        Poll(Running, Store(hasExitCode, 0))
      else
        Poll(Ended, Store(hasExitCode, AsInt32(reply.code)))
    else
      Poll(QueryFailed, Store(hasExitCode, -1))
  }

  /** An ended process: the stored value is its exit code, read back as a 32-bit int. */
  lemma WindowsEndedExitCode(code: Dword)
    requires code != StillActive
    ensures WindowsStatus(ExitCodeReply(true, code), true) == Poll(Ended, Some(AsInt32(code)))
    ensures FromInt32(ExitCode(WindowsStatus(ExitCodeReply(true, code), true))) == code
  {
    AsInt32RoundTrip(code, 0);
  }

  /**
   * exitProcess and killProcess end the process with TerminateProcess(p, -1):
   * afterwards it reads as ended with code -1, the same value a failed query
   * stores, told apart only by the return code.
   */
  lemma WindowsTerminatedReadsMinusOne()
    ensures WindowsStatus(ExitCodeReply(true, FromInt32(-1)), true) == Poll(Ended, Some(-1))
    ensures WindowsStatus(ExitCodeReply(false, 0), true) == Poll(QueryFailed, Some(-1))
  {
  }

  /** A process that really exited with code 259 reads as still running. */
  lemma WindowsExit259LooksRunning(hasExitCode: bool)
    ensures WindowsStatus(ExitCodeReply(true, 259), hasExitCode).returnCode == Running
  {
  }

  /** Passing NULL for `exitCode` stores nothing and leaves the return code as it is. */
  lemma WindowsNullPointer(reply: ExitCodeReply)
    ensures WindowsStatus(reply, false) == Poll(WindowsStatus(reply, true).returnCode, None)
  {
  }
}
