/**
 * The `ARGS` argument vector of args.c.
 *
 * The record keeps the whole pointer array, slot by slot, so that the NULL
 * sentinel and the bounds of every `memmove` are part of the model: `argv` is
 * the allocation (its length is the number of slots) and `argc` the number of
 * live strings. Each operation follows the C code's realloc, memmove and
 * stores, and its contract states the effect on the list of live strings.
 */
module Args {
  import opened Nullable
  import opened CString
  import Quote

  datatype ArgVec = ArgVec(argc: nat, argv: seq<Option<string>>)

  /** The representation invariant: live strings below `argc`, NULL at `argc`. */
  predicate Valid(a: ArgVec) {
    && a.argc < |a.argv|
    && a.argv[a.argc] == None
    && forall i :: 0 <= i < a.argc ==> a.argv[i].Some?
  }

  /** The live strings, in order. */
  function Elems(a: ArgVec): (r: seq<string>)
    requires Valid(a)
    ensures |r| == a.argc
    ensures forall i :: 0 <= i < a.argc ==> a.argv[i] == Some(r[i])
  {
    seq(a.argc, i requires 0 <= i < a.argc => a.argv[i].value)
  }

  /**
   * `x_realloc(argv, n * sizeof(char *))`: the first `n` slots survive. Slots
   * the allocation gains are left NULL here; every caller overwrites them.
   */
  function Realloc(buf: seq<Option<string>>, n: nat): (r: seq<Option<string>>)
    ensures |r| == n
    ensures forall i :: 0 <= i < n && i < |buf| ==> r[i] == buf[i]
  {
    if n <= |buf| then buf[..n] else buf + seq(n - |buf|, _ => None)
  }

  /**
   * `memmove(&buf[dst], &buf[src], count * sizeof(char *))`. Both ranges have
   * to lie inside the allocation, which is what the precondition demands.
   */
  function Memmove(buf: seq<Option<string>>, dst: nat, src: nat, count: nat): (r: seq<Option<string>>)
    requires src + count <= |buf| && dst + count <= |buf|
    ensures |r| == |buf|
    ensures forall k :: dst <= k < dst + count ==> r[k] == buf[k - dst + src]
    ensures forall k :: 0 <= k < |buf| && !(dst <= k < dst + count) ==> r[k] == buf[k]
  {
    seq(|buf|, k requires 0 <= k < |buf| => if dst <= k < dst + count then buf[k - dst + src] else buf[k])
  }

  /** The vector args_init starts from: no strings, one NULL slot. */
  function Empty(): (r: ArgVec)
    ensures Valid(r) && Elems(r) == []
  {
    ArgVec(0, [None])
  }

  /** `args_add`: grow by one slot, store the copy at `argc`, NULL after it. */
  function Add(a: ArgVec, s: string): (r: ArgVec)
    requires Valid(a)
    ensures Valid(r) && Elems(r) == Elems(a) + [s]
    ensures |r.argv| == r.argc + 1
  {
    var buf := Realloc(a.argv, a.argc + 2);
    ArgVec(a.argc + 1, buf[a.argc := Some(s)][a.argc + 1 := None])
  }

  /**
   * `args_add_q`: the same slot handling as `args_add`, storing the quoted
   * copy of `s` (the quoting itself is `Quote.QuoteArg`, which also covers
   * the empty argument).
   */
  function AddQuoted(a: ArgVec, s: string): (r: ArgVec)
    requires Valid(a)
    ensures Valid(r) && Elems(r) == Elems(a) + [Quote.QuoteArg(s)]
    ensures Quote.UnquoteArg(Elems(r)[|Elems(a)|]) == s
    ensures |a.argv| == a.argc + 1 ==> |r.argv| == r.argc + 1
  {
    Quote.QuoteArgRoundTrip(s);
    Add(a, Quote.QuoteArg(s))
  }

  /** The loop of args_init: `args_add` for each string in turn. */
  function AddAll(a: ArgVec, l: seq<string>): (r: ArgVec)
    requires Valid(a)
    ensures Valid(r) && Elems(r) == Elems(a) + l
    ensures |a.argv| == a.argc + 1 ==> |r.argv| == r.argc + 1
    decreases |l|
  {
    if l == [] then a
    else
      var b := Add(a, l[0]);
      assert Elems(b) + l[1..] == Elems(a) + l;
      AddAll(b, l[1..])
  }

  /** The quoted copies of the strings of `l`, in order. */
  function QuoteEach(l: seq<string>): (r: seq<string>)
    ensures |r| == |l| && forall i :: 0 <= i < |l| ==> r[i] == Quote.QuoteArg(l[i])
  {
    seq(|l|, i requires 0 <= i < |l| => Quote.QuoteArg(l[i]))
  }

  /**
   * `args_init(n, l)`: a fresh vector holding copies of the first `n` strings
   * of `l` in order (none when `n` is not positive), with the sentinel right
   * after them.
   */
  function Init(n: int, l: seq<string>): (r: ArgVec)
    requires n <= |l|
    ensures Valid(r) && |r.argv| == r.argc + 1
    ensures Elems(r) == if n <= 0 then [] else l[..n]
  {
    AddAll(Empty(), if n <= 0 then [] else l[..n])
  }

  /**
   * `args_init_q(n, l)`: a fresh vector holding the quoted copies of the
   * first `n` strings of `l`, in order. Its loop calls `args_add_q`, which is
   * `args_add` of the quoted string (`AddQuoted`), so it is `AddAll` over the
   * quoted strings.
   */
  function InitQuoted(n: int, l: seq<string>): (r: ArgVec)
    requires n <= |l|
    ensures Valid(r) && |r.argv| == r.argc + 1
    ensures |Elems(r)| == if n <= 0 then 0 else n
    ensures forall i :: 0 <= i < n ==> Elems(r)[i] == Quote.QuoteArg(l[i])
  {
    AddAll(Empty(), QuoteEach(if n <= 0 then [] else l[..n]))
  }

  /** One turn of args_pop's loop: `argc--` and NULL the slot it frees. */
  function PopOne(a: ArgVec): (r: ArgVec)
    requires Valid(a) && a.argc >= 1
  {
    ArgVec(a.argc - 1, a.argv[a.argc - 1 := None])
  }

  /**
   * `args_pop(n)`: the last `n` strings are dropped, the slots they held are
   * NULL, and the allocation keeps its size. The C code has no check, so
   * `n` must lie between 0 and `argc`: a negative `n` never ends `while (n--)`
   * before `argc` goes below 0.
   */
  function Pop(a: ArgVec, n: int): (r: ArgVec)
    requires Valid(a) && 0 <= n <= a.argc
    ensures Valid(r) && Elems(r) == Elems(a)[..a.argc - n]
    ensures |r.argv| == |a.argv|
    ensures forall i :: r.argc <= i <= a.argc ==> r.argv[i] == None
    ensures forall i :: a.argc < i < |a.argv| ==> r.argv[i] == a.argv[i]
    decreases n
  {
    if n == 0 then a else Pop(PopOne(a), n - 1)
  }

  /**
   * `args_remove_first`: the slots from 1 through the sentinel move down by
   * one. The C code has no check, so the vector must not be empty.
   */
  function RemoveFirst(a: ArgVec): (r: ArgVec)
    requires Valid(a) && a.argc >= 1
    ensures Valid(r) && Elems(r) == Elems(a)[1..]
    ensures |r.argv| == |a.argv|
  {
    ArgVec(a.argc - 1, Memmove(a.argv, 0, 1, a.argc))
  }

  /**
   * `args_add_prefix`: grow by one slot, move every slot including the
   * sentinel up by one, and store the copy of `s` at the front.
   */
  function AddPrefix(a: ArgVec, s: string): (r: ArgVec)
    requires Valid(a)
    ensures Valid(r) && Elems(r) == [s] + Elems(a)
    ensures |r.argv| == r.argc + 1
  {
    var buf := Realloc(a.argv, a.argc + 2);
    ArgVec(a.argc + 1, Memmove(buf, 1, 0, a.argc + 1)[0 := Some(s)])
  }

  /**
   * The strings of `xs` that do not start with `prefix`, in their order: the
   * intended outcome of args_strip.
   */
  function Keep(xs: seq<string>, prefix: string): (r: seq<string>)
    ensures |r| <= |xs|
    decreases |xs|
  {
    if xs == [] then []
    else (if HasPrefix(xs[0], prefix) then [] else [xs[0]]) + Keep(xs[1..], prefix)
  }

  /**
   * The survivors are exactly the strings of `xs` without the prefix: none of
   * them has it, and every string that lacks it survives.
   */
  lemma {:induction false} KeepMembers(xs: seq<string>, prefix: string)
    ensures forall x :: x in Keep(xs, prefix) <==> x in xs && !HasPrefix(x, prefix)
    decreases |xs|
  {
    if xs != [] {
      KeepMembers(xs[1..], prefix);
      assert forall x :: x in xs <==> x == xs[0] || x in xs[1..];
    }
  }

  /** Filtering commutes with concatenation, so the survivors keep their order. */
  lemma {:induction false} KeepAppend(xs: seq<string>, ys: seq<string>, prefix: string)
    ensures Keep(xs + ys, prefix) == Keep(xs, prefix) + Keep(ys, prefix)
    decreases |xs|
  {
    if xs == [] {
      assert xs + ys == ys;
    } else {
      assert (xs + ys)[0] == xs[0];
      assert (xs + ys)[1..] == xs[1..] + ys;
      KeepAppend(xs[1..], ys, prefix);
    }
  }

  /**
   * Dropping the string at `i` the way args_strip does: the slots from `i + 1`
   * through the sentinel (`argc - i` of them) move down by one.
   */
  function RemoveAt(a: ArgVec, i: nat): (r: ArgVec)
    requires Valid(a) && i < a.argc
    ensures Valid(r) && Elems(r) == Elems(a)[..i] + Elems(a)[i + 1..]
    ensures |r.argv| == |a.argv|
  {
    ArgVec(a.argc - 1, Memmove(a.argv, i, i + 1, a.argc - i))
  }

  /** The strip loop removing the string at `i` keeps its outcome. */
  lemma DropStep(e: seq<string>, e': seq<string>, i: nat, prefix: string)
    requires i < |e| && HasPrefix(e[i], prefix) && e' == e[..i] + e[i + 1..]
    ensures e'[..i] + Keep(e'[i..], prefix) == e[..i] + Keep(e[i..], prefix)
  {
    assert e'[..i] == e[..i];
    assert e'[i..] == e[i + 1..];
    assert e[i..][1..] == e[i + 1..];
  }

  /** The strip loop stepping past the string at `i` keeps its outcome. */
  lemma KeepStep(e: seq<string>, i: nat, prefix: string)
    requires i < |e| && !HasPrefix(e[i], prefix)
    ensures e[..i + 1] + Keep(e[i + 1..], prefix) == e[..i] + Keep(e[i..], prefix)
  {
    assert e[i..][1..] == e[i + 1..];
    assert e[..i + 1] == e[..i] + [e[i]];
  }

  /**
   * The loop of args_strip from index `i` on. The test
   * `strncmp(argv[i], prefix, strlen(prefix)) == 0` is `HasPrefix` for C
   * strings (`CString.StrncmpIsPrefixTest`).
   */
  function StripFrom(a: ArgVec, prefix: string, i: nat): (r: ArgVec)
    requires Valid(a) && i <= a.argc
    ensures Valid(r) && Elems(r) == Elems(a)[..i] + Keep(Elems(a)[i..], prefix)
    ensures |r.argv| == |a.argv|
    decreases a.argc - i
  {
    if i == a.argc then
      assert Elems(a)[i..] == [];
      a
    else if HasPrefix(a.argv[i].value, prefix) then
      var b := RemoveAt(a, i);
      DropStep(Elems(a), Elems(b), i, prefix);
      StripFrom(b, prefix, i)
    else
      KeepStep(Elems(a), i, prefix);
      StripFrom(a, prefix, i + 1)
  }

  /**
   * `args_strip(prefix)`: every string starting with `prefix` is removed,
   * the others stay in their order, and the sentinel follows the last one.
   */
  function Strip(a: ArgVec, prefix: string): (r: ArgVec)
    requires Valid(a)
    ensures Valid(r) && Elems(r) == Keep(Elems(a), prefix)
    ensures |r.argv| == |a.argv|
  {
    assert Elems(a)[0..] == Elems(a);
    StripFrom(a, prefix, 0)
  }

  /** No string left by args_strip starts with the prefix. */
  lemma StripLeavesNoMatch(a: ArgVec, prefix: string)
    requires Valid(a)
    ensures forall i :: 0 <= i < |Elems(Strip(a, prefix))| ==> !HasPrefix(Elems(Strip(a, prefix))[i], prefix)
  {
    var r := Elems(Strip(a, prefix));
    KeepMembers(Elems(a), prefix);
    forall i | 0 <= i < |r| ensures !HasPrefix(r[i], prefix) {
      assert r[i] in r;
    }
  }

  /** Every string starts with the empty prefix, so stripping it empties the vector. */
  lemma {:induction false} StripEmptyPrefix(a: ArgVec)
    requires Valid(a)
    ensures Elems(Strip(a, "")) == []
  {
    var r := Elems(Strip(a, ""));
    KeepMembers(Elems(a), "");
    if r != [] {
      assert r[0] in r;
      assert HasPrefix(r[0], "");
    }
  }

  /** Stripping twice with the same prefix removes nothing more. */
  lemma {:induction false} KeepIdempotent(xs: seq<string>, prefix: string)
    ensures Keep(Keep(xs, prefix), prefix) == Keep(xs, prefix)
    decreases |xs|
  {
    if xs != [] {
      KeepIdempotent(xs[1..], prefix);
      var head := if HasPrefix(xs[0], prefix) then [] else [xs[0]];
      KeepAppend(head, Keep(xs[1..], prefix), prefix);
      if head != [] {
        assert head[1..] == [];
      }
    }
  }

  lemma StripIdempotent(a: ArgVec, prefix: string)
    requires Valid(a)
    ensures Elems(Strip(Strip(a, prefix), prefix)) == Elems(Strip(a, prefix))
  {
    KeepIdempotent(Elems(a), prefix);
  }

  /** The example of the strip rule: `-I` arguments go, `-O2` stays. */
  lemma StripExample()
    ensures Elems(Strip(Init(3, ["-I/x", "-O2", "-Ifoo"]), "-I")) == ["-O2"]
  {
    var l := ["-I/x", "-O2", "-Ifoo"];
    assert l[..3] == l;
    assert "-O2"[..2] == "-O";
    assert HasPrefix("-I/x", "-I") && !HasPrefix("-O2", "-I") && HasPrefix("-Ifoo", "-I");
    assert Keep(l[2..], "-I") == [];
    assert Keep(l[1..], "-I") == ["-O2"];
  }

  /**
   * args_strip as written: the `memmove` moves `argc` slots from `i + 1`
   * instead of the `argc - i` slots that lie inside the array. `None` stands
   * for a move that leaves the allocation; when no move does, the outcome is
   * the intended one.
   */
  function StripFromAsWritten(a: ArgVec, prefix: string, i: nat): (r: Option<ArgVec>)
    requires Valid(a) && i <= a.argc
    ensures r.Some? ==> Valid(r.value) && Elems(r.value) == Elems(a)[..i] + Keep(Elems(a)[i..], prefix)
    decreases a.argc - i
  {
    if i == a.argc then
      assert Elems(a)[i..] == [];
      Some(a)
    else if HasPrefix(a.argv[i].value, prefix) then
      if i + 1 + a.argc <= |a.argv| then
        var b := ArgVec(a.argc - 1, Memmove(a.argv, i, i + 1, a.argc));
        assert Valid(b) && Elems(b) == Elems(a)[..i] + Elems(a)[i + 1..];
        DropStep(Elems(a), Elems(b), i, prefix);
        StripFromAsWritten(b, prefix, i)
      else None
    else
      KeepStep(Elems(a), i, prefix);
      StripFromAsWritten(a, prefix, i + 1)
  }

  /**
   * A vector built by args_init whose first string survives and whose second
   * is stripped: the as-written move reads and writes past the array, while
   * the corrected `Strip` yields the survivor.
   */
  lemma StripAsWrittenOverruns()
    ensures StripFromAsWritten(Init(2, ["x", "-Ib"]), "-I", 0).None?
    ensures Elems(Strip(Init(2, ["x", "-Ib"]), "-I")) == ["x"]
  {
    var l := ["x", "-Ib"];
    assert l[..2] == l;
    var a := Init(2, l);
    assert !HasPrefix("x", "-I") && HasPrefix("-Ib", "-I");
    assert a.argv[0] == Some("x") && a.argv[1] == Some("-Ib") && |a.argv| == 3;
    assert Keep(l[1..], "-I") == [];
  }

  /**
   * The same for every vector whose allocation is exactly `argc + 1` slots
   * (as args_init and args_add leave it): once the first string survives and
   * the second is stripped, the as-written move leaves the allocation.
   */
  lemma StripAsWrittenOverrunsTight(a: ArgVec, prefix: string)
    requires Valid(a) && |a.argv| == a.argc + 1 && a.argc >= 2
    requires !HasPrefix(Elems(a)[0], prefix) && HasPrefix(Elems(a)[1], prefix)
    ensures StripFromAsWritten(a, prefix, 0).None?
    ensures |Elems(Strip(a, prefix))| < a.argc
  {
    assert StripFromAsWritten(a, prefix, 0) == StripFromAsWritten(a, prefix, 1);
    KeepMembers(Elems(a), prefix);
    KeepShrinks(Elems(a), prefix, 1);
  }

  /** Filtering out a string that has the prefix makes the result shorter. */
  lemma {:induction false} KeepShrinks(xs: seq<string>, prefix: string, k: nat)
    requires k < |xs| && HasPrefix(xs[k], prefix)
    ensures |Keep(xs, prefix)| < |xs|
    decreases |xs|
  {
    if k > 0 {
      KeepShrinks(xs[1..], prefix, k - 1);
    }
  }
}
