/**
 * C strings and the few string routines of the C library the model relies on.
 *
 * A C string is modelled by the characters in front of its terminator, so it
 * never contains NUL itself; `NulFree` states that convention where a proof
 * needs it.
 */
module CString {

  const NUL: char := '\0'

  /** The double-quote character. */
  const DQ: char := '"'

  predicate NulFree(s: string) {
    NUL !in s
  }

  /** The character at offset `i` of the NUL-terminated buffer that holds `s`. */
  function CharAt(s: string, i: nat): char {
    if i < |s| then s[i] else NUL
  }

  /** `p` is a prefix of `s`. */
  predicate HasPrefix(s: string, p: string) {
    |p| <= |s| && s[..|p|] == p
  }

  /**
   * `strncmp(a, b, n) == 0`: the first `n` characters of the two terminated
   * buffers agree, where the comparison stops early at a terminator both share.
   */
  function StrnEqual(a: string, b: string, n: nat): bool
    decreases n
  {
    if n == 0 then true
    else if CharAt(a, 0) != CharAt(b, 0) then false
    else if CharAt(a, 0) == NUL then true
    else StrnEqual(a[1..], b[1..], n - 1)
  }

  /**
   * For C strings, `strncmp(s, p, strlen(p)) == 0` is exactly "`p` is a prefix
   * of `s`": this is the test args_strip applies to every element.
   */
  lemma {:induction false} StrncmpIsPrefixTest(s: string, p: string)
    requires NulFree(s) && NulFree(p)
    ensures StrnEqual(s, p, |p|) <==> HasPrefix(s, p)
    decreases |p|
  {
    if p == [] {
    } else if s == [] {
      assert p[0] in p;
      assert CharAt(s, 0) != CharAt(p, 0);
    } else if s[0] != p[0] {
    } else {
      assert s[0] in s;
      assert NulFree(s[1..]) by {
        forall c | c in s[1..] ensures c != NUL {
          var k :| 0 <= k < |s[1..]| && s[1..][k] == c;
          assert s[k + 1] in s;
        }
      }
      assert NulFree(p[1..]) by {
        forall c | c in p[1..] ensures c != NUL {
          var k :| 0 <= k < |p[1..]| && p[1..][k] == c;
          assert p[k + 1] in p;
        }
      }
      StrncmpIsPrefixTest(s[1..], p[1..]);
      if HasPrefix(s, p) {
        assert s[1..][..|p| - 1] == s[..|p|][1..];
      }
      if HasPrefix(s[1..], p[1..]) {
        assert s[..|p|] == [s[0]] + s[1..][..|p[1..]|];
        assert p == [p[0]] + p[1..];
      }
    }
  }

  /**
   * `str_basename`: the text after the last '/' of `path`, or all of `path`
   * when it holds no '/'.
   */
  function Basename(path: string): (r: string)
    ensures '/' !in r
    ensures |r| <= |path| && r == path[|path| - |r|..]
    ensures |r| < |path| ==> path[|path| - |r| - 1] == '/'
  {
    if path == [] || path[|path| - 1] == '/' then []
    else Basename(path[..|path| - 1]) + [path[|path| - 1]]
  }

  /**
   * Storing `c` through a write cursor (`*ptr++ = c`) into a buffer whose
   * first `ptr` characters already hold `out` extends the written prefix by `c`.
   */
  method Put(buf: seq<char>, ptr: nat, c: char, ghost out: string) returns (buf': seq<char>, ptr': nat)
    requires ptr < |buf| && buf[..ptr] == out
    ensures |buf'| == |buf| && ptr' == ptr + 1 && buf'[..ptr'] == out + [c]
    ensures buf'[..ptr] == out && buf'[ptr] == c
  {
    buf' := buf[ptr := c];
    assert buf'[..ptr + 1] == buf[..ptr] + [c];
    ptr' := ptr + 1;
  }
}
