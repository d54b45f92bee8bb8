/**
 * `argvtos` of execute.c: the single command-line string built from an
 * argument array on the platform whose spawn call takes one string.
 * Each argument is laid out as `"arg" `, one after the other.
 */
module CommandLine {
  import opened Nullable
  import opened CString

  const SP: char := ' '

  /** One argument as argvtos lays it out. */
  function Wrapped(arg: string): string {
    [DQ] + arg + [DQ, SP]
  }

  /** The command line: the wrapped arguments in order. */
  function Join(argv: seq<string>): string
    decreases |argv|
  {
    if argv == [] then [] else Wrapped(argv[0]) + Join(argv[1..])
  }

  /** What argvtos's first loop adds up: `strlen(argv[i]) + 3` per argument. */
  function Length(argv: seq<string>): nat
    decreases |argv|
  {
    if argv == [] then 0 else |argv[0]| + 3 + Length(argv[1..])
  }

  lemma {:induction false} JoinSnoc(argv: seq<string>, arg: string)
    ensures Join(argv + [arg]) == Join(argv) + Wrapped(arg)
    ensures Length(argv + [arg]) == Length(argv) + |arg| + 3
    decreases |argv|
  {
    if argv == [] {
      assert [] + [arg] == [arg];
      assert [arg][1..] == [];
    } else {
      assert (argv + [arg])[1..] == argv[1..] + [arg];
      JoinSnoc(argv[1..], arg);
    }
  }

  /** The length the allocation is sized by is exactly the length of the command line. */
  lemma {:induction false} JoinLength(argv: seq<string>)
    ensures |Join(argv)| == Length(argv)
    decreases |argv|
  {
    if argv != [] {
      JoinLength(argv[1..]);
    }
  }

  lemma LengthPrefix(argv: seq<string>, i: nat)
    requires i <= |argv|
    ensures Length(argv[..i]) <= Length(argv)
  {
    LengthSplit(argv[..i], argv[i..]);
    assert argv[..i] + argv[i..] == argv;
  }

  lemma {:induction false} LengthSplit(xs: seq<string>, ys: seq<string>)
    ensures Length(xs + ys) == Length(xs) + Length(ys)
    decreases |xs|
  {
    if xs == [] {
      assert xs + ys == ys;
    } else {
      assert (xs + ys)[1..] == xs[1..] + ys;
      LengthSplit(xs[1..], ys);
    }
  }

  /** `memcpy(ptr, src, strlen(src)); ptr += strlen(src)`. */
  method Copy(buf: seq<char>, ptr: nat, src: string, ghost out: string) returns (buf': seq<char>, ptr': nat)
    requires ptr + |src| <= |buf| && buf[..ptr] == out
    ensures |buf'| == |buf| && ptr' == ptr + |src| && buf'[..ptr'] == out + src
  {
    buf' := buf[..ptr] + src + buf[ptr + |src|..];
    assert buf'[..ptr + |src|] == buf[..ptr] + src;
    ptr' := ptr + |src|;
  }

  /**
   * argvtos: the first loop sizes the allocation at `len + 1`, the second
   * writes every argument into it through `ptr`. Every write lands inside the
   * allocation, and the result is the command line and its terminator,
   * filling the allocation exactly.
   */
  method Argvtos(argv: seq<string>) returns (str: seq<char>)
    ensures |str| == Length(argv) + 1
    ensures str == Join(argv) + [NUL]
  {
    var len := 0;
    var i := 0;
    while i < |argv|
      invariant 0 <= i <= |argv| && len == Length(argv[..i])
    {
      JoinSnoc(argv[..i], argv[i]);
      assert argv[..i + 1] == argv[..i] + [argv[i]];
      len := len + |argv[i]| + 3;
      i := i + 1;
    }
    assert argv[..i] == argv;
    str := seq(len + 1, _ => NUL);
    var ptr := 0;
    assert argv[..0] == [];
    ghost var out: string := [];
    i := 0;
    while i < |argv|
      invariant 0 <= i <= |argv| && |str| == Length(argv) + 1
      invariant ptr == Length(argv[..i]) && ptr <= Length(argv)
      invariant ptr == |out| && out == Join(argv[..i]) && str[..ptr] == out
    {
      JoinSnoc(argv[..i], argv[i]);
      LengthPrefix(argv, i + 1);
      assert argv[..i + 1] == argv[..i] + [argv[i]];
      str, ptr := Put(str, ptr, DQ, out);
      out := out + [DQ];
      str, ptr := Copy(str, ptr, argv[i], out);
      out := out + argv[i];
      str, ptr := Put(str, ptr, DQ, out);
      out := out + [DQ];
      str, ptr := Put(str, ptr, SP, out);
      out := out + [SP];
      assert out == Join(argv[..i + 1]);
      i := i + 1;
    }
    assert argv[..i] == argv;
    str, ptr := Put(str, ptr, NUL, out);
    assert str == str[..ptr];
  }

  /** The position of the first '"' in `s`, if any. */
  function FindQuote(s: string): (r: Option<nat>)
    ensures r.Some? ==> r.value < |s| && s[r.value] == DQ && DQ !in s[..r.value]
    ensures r.None? ==> DQ !in s
  {
    if s == [] then None
    else if s[0] == DQ then Some(0)
    else match FindQuote(s[1..])
      case None => None
      case Some(k) => Some(k + 1)
  }

  /**
   * Reads a command line back into arguments: each `"arg" ` group in turn,
   * where an argument runs up to the next '"'. `None` when the text is not
   * such a sequence of groups.
   */
  function Split(s: string): Option<seq<string>>
    decreases |s|
  {
    if s == [] then Some([])
    else if s[0] != DQ then None
    else match FindQuote(s[1..])
      case None => None
      case Some(k) =>
        if k + 2 < |s| && s[k + 2] == SP then
          match Split(s[k + 3..])
            case None => None
            case Some(rest) => Some([s[1..k + 1]] + rest)
        else None
  }

  lemma {:induction false} FindQuoteAfter(arg: string, tail: string)
    requires DQ !in arg
    ensures FindQuote(arg + [DQ] + tail) == Some(|arg|)
    decreases |arg|
  {
    if arg == [] {
      assert (arg + [DQ] + tail)[0] == DQ;
    } else {
      assert arg[0] in arg;
      assert (arg + [DQ] + tail)[1..] == arg[1..] + [DQ] + tail;
      assert DQ !in arg[1..] by {
        forall c | c in arg[1..] ensures c != DQ {
          var k :| 0 <= k < |arg[1..]| && arg[1..][k] == c;
          assert arg[k + 1] in arg;
        }
      }
      FindQuoteAfter(arg[1..], tail);
    }
  }

  /** Reading back a group `"arg" ` in front of `tail` yields `arg` and then `tail`'s arguments. */
  lemma SplitWrapped(arg: string, tail: string)
    requires DQ !in arg
    ensures Split(Wrapped(arg) + tail)
            == match Split(tail) case None => None case Some(rest) => Some([arg] + rest)
  {
    var s := Wrapped(arg) + tail;
    assert s == [DQ] + (arg + [DQ] + ([SP] + tail));
    FindQuoteAfter(arg, [SP] + tail);
    assert s[1..] == arg + [DQ] + ([SP] + tail);
    assert s[|arg| + 2] == SP;
    assert s[|arg| + 3..] == tail;
    assert s[1..|arg| + 1] == arg;
  }

  /**
   * For arguments free of '"', the command line determines the arguments:
   * reading it back gives the array. An argument holding a '"' would end its
   * group early, which is why the spawn path quotes arguments first.
   */
  lemma {:induction false} SplitJoin(argv: seq<string>)
    requires forall i :: 0 <= i < |argv| ==> DQ !in argv[i]
    ensures Split(Join(argv)) == Some(argv)
    decreases |argv|
  {
    if argv != [] {
      SplitJoin(argv[1..]);
      SplitWrapped(argv[0], Join(argv[1..]));
      assert [argv[0]] + argv[1..] == argv;
    }
  }
}
