/**
 * The exit status `execute` returns on POSIX after `waitpid` (execute.c).
 *
 * The status word is decoded with the Linux/glibc layout of `<sys/wait.h>`:
 * for a normal exit the exit code sits in bits 8..15 and the low seven bits
 * are zero; for a death by signal the low seven bits hold the signal number
 * (1..126) and bit 7 the core-dump flag.
 */
module WaitStatus {

  /** The status word `waitpid` stores, a C `int`. */
  type Int32 = x: int | -0x8000_0000 <= x < 0x8000_0000

  /** `WEXITSTATUS(status)`: `(status & 0xff00) >> 8`. */
  function ExitCode(status: Int32): int {
    (status % 0x1_0000) / 0x100
  }

  /** `status & 0x7f`: the number of the signal that ended the child. */
  function TermSig(status: Int32): int {
    status % 0x80
  }

  /** `WIFSIGNALED(status)`: a signal number other than 0 and 0x7f (stopped). */
  predicate Signaled(status: Int32) {
    0 < TermSig(status) < 0x7f
  }

  /**
   * What `execute` returns for the status word: -1 exactly when the exit-code
   * byte is 0 and the child was killed by a signal, otherwise the exit-code
   * byte, which is never negative and below 256.
   */
  function Normalize(status: Int32): (r: int)
    ensures r == -1 || 0 <= r < 0x100
    ensures r == -1 <==> ExitCode(status) == 0 && Signaled(status)
    ensures r != -1 ==> r == ExitCode(status)
  {
    if ExitCode(status) == 0 && Signaled(status) then -1 else ExitCode(status)
  }

  /** How a child ended, as the kernel reports it to `waitpid`. */
  datatype Termination = Exited(code: int) | Killed(signal: int, coreDumped: bool)

  predicate WellFormed(t: Termination) {
    match t
    case Exited(code) => 0 <= code < 0x100
    case Killed(signal, _) => 0 < signal < 0x7f
  }

  /** The status word the kernel stores for a termination. */
  function Encode(t: Termination): Int32
    requires WellFormed(t)
  {
    match t
    case Exited(code) => code * 0x100
    case Killed(signal, core) => signal + (if core then 0x80 else 0)
  }

  /**
   * A child that exits with code c yields c; a child killed by a signal
   * yields -1, never a value in 0..255 that could pass for an exit code.
   */
  lemma NormalizeDecodes(t: Termination)
    requires WellFormed(t)
    ensures Normalize(Encode(t)) == if t.Exited? then t.code else -1
  {
    match t
    case Exited(code) =>
      assert code * 0x100 < 0x1_0000;
      assert ExitCode(code * 0x100) == code;
      assert TermSig(code * 0x100) == 0;
    case Killed(signal, core) =>
      var w := signal + (if core then 0x80 else 0);
      assert 0 < w < 0x100;
      assert ExitCode(w) == 0;
      assert TermSig(w) == signal;
  }

  /** A status word with signal bits set and a non-zero exit byte reports the exit byte. */
  lemma StaleExitBits()
    ensures Signaled(0x0709) && Normalize(0x0709) == 7
  {
  }
}
