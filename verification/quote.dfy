/**
 * The double-quote escaping applied by args_add_q before an argument is put
 * into a single command-line string.
 *
 * The first character is copied as it is; every later '"' gets a backslash in
 * front of it, except a final '"' in a string that also began with '"' (the
 * pair then delimits the argument).
 */
module Quote {
  import opened Nullable
  import opened CString

  const BS: char := '\\'

  /** What the copy loop emits for a character after the first one. */
  function Emit(c: char, isLast: bool, startQuote: bool): string {
    if c == DQ && (!startQuote || !isLast) then [BS, DQ] else [c]
  }

  /** The copy loop over the characters after the first. */
  function QuoteRest(t: string, startQuote: bool): (r: string)
    ensures |t| <= |r| <= 2 * |t|
  {
    if t == [] then []
    else Emit(t[0], |t| == 1, startQuote) + QuoteRest(t[1..], startQuote)
  }

  /**
   * The quoted copy of a non-empty argument. The empty string is excluded:
   * for it the C code copies the terminator and then reads past it.
   */
  function Quote(s: string): (r: string)
    requires |s| > 0
    ensures |r| > 0 && r[0] == s[0]
    ensures |s| <= |r| <= 2 * |s| - 1
  {
    [s[0]] + QuoteRest(s[1..], s[0] == DQ)
  }

  lemma {:induction false} QuoteRestIdentity(t: string, startQuote: bool)
    requires DQ !in t
    ensures QuoteRest(t, startQuote) == t
    decreases |t|
  {
    if t != [] {
      assert t[0] in t;
      assert DQ !in t[1..] by {
        forall c | c in t[1..] ensures c != DQ {
          var k :| 0 <= k < |t[1..]| && t[1..][k] == c;
          assert t[k + 1] in t;
        }
      }
      QuoteRestIdentity(t[1..], startQuote);
      assert t == [t[0]] + t[1..];
    }
  }

  /** An argument without double quotes is left as it is. */
  lemma QuoteIdentity(s: string)
    requires |s| > 0 && DQ !in s
    ensures Quote(s) == s
  {
    assert DQ !in s[1..] by {
      forall c | c in s[1..] ensures c != DQ {
        var k :| 0 <= k < |s[1..]| && s[1..][k] == c;
        assert s[k + 1] in s;
      }
    }
    QuoteRestIdentity(s[1..], s[0] == DQ);
    assert s == [s[0]] + s[1..];
  }

  lemma {:induction false} QuoteRestNulFree(t: string, startQuote: bool)
    requires NulFree(t)
    ensures NulFree(QuoteRest(t, startQuote))
    decreases |t|
  {
    if t != [] {
      assert t[0] in t;
      assert NulFree(t[1..]) by {
        forall c | c in t[1..] ensures c != NUL {
          var k :| 0 <= k < |t[1..]| && t[1..][k] == c;
          assert t[k + 1] in t;
        }
      }
      QuoteRestNulFree(t[1..], startQuote);
    }
  }

  /** The quoted copy of a C string is again a C string: no terminator is introduced. */
  lemma QuoteNulFree(s: string)
    requires |s| > 0 && NulFree(s)
    ensures NulFree(Quote(s))
  {
    assert s[0] in s;
    assert NulFree(s[1..]) by {
      forall c | c in s[1..] ensures c != NUL {
        var k :| 0 <= k < |s[1..]| && s[1..][k] == c;
        assert s[k + 1] in s;
      }
    }
    QuoteRestNulFree(s[1..], s[0] == DQ);
  }

  /** Every '"' of `t` escaped: the treatment of the interior characters. */
  function EscapeAll(t: string): (r: string)
  {
    if t == [] then []
    else (if t[0] == DQ then [BS, DQ] else [t[0]]) + EscapeAll(t[1..])
  }

  /** Deletes the backslashes that QuoteRest inserted. */
  function UnquoteRest(t: string, startQuote: bool): string
    decreases |t|
  {
    if t == [] then []
    else if |t| >= 2 && t[0] == BS && t[1] == DQ && !(startQuote && |t| == 2) then
      [DQ] + UnquoteRest(t[2..], startQuote)
    else [t[0]] + UnquoteRest(t[1..], startQuote)
  }

  /** Reads a quoted argument back: the first character, then the rest unescaped. */
  function Unquote(r: string): string
    requires |r| > 0
  {
    [r[0]] + UnquoteRest(r[1..], r[0] == DQ)
  }

  /** A quoted tail starts with an unescaped '"' only for a closing quote. */
  lemma QuoteRestHead(t: string, startQuote: bool)
    requires |QuoteRest(t, startQuote)| > 0 && QuoteRest(t, startQuote)[0] == DQ
    ensures startQuote && t == [DQ]
  {
    assert QuoteRest(t, startQuote) == Emit(t[0], |t| == 1, startQuote) + QuoteRest(t[1..], startQuote);
  }

  lemma {:induction false} UnquoteRestInverts(t: string, startQuote: bool)
    ensures UnquoteRest(QuoteRest(t, startQuote), startQuote) == t
    decreases |t|
  {
    if t != [] {
      var rest := QuoteRest(t[1..], startQuote);
      var q := QuoteRest(t, startQuote);
      assert q == Emit(t[0], |t| == 1, startQuote) + rest;
      UnquoteRestInverts(t[1..], startQuote);
      if t[0] == DQ && (!startQuote || |t| != 1) {
        assert q[2..] == rest;
      } else {
        assert q[1..] == rest;
        if |q| >= 2 && q[0] == BS && q[1] == DQ {
          assert rest[0] == DQ;
          QuoteRestHead(t[1..], startQuote);
        }
      }
    }
  }

  /** Deleting the inserted backslashes gives the argument back. */
  lemma QuoteRoundTrip(s: string)
    requires |s| > 0
    ensures Unquote(Quote(s)) == s
  {
    var r := Quote(s);
    assert r[1..] == QuoteRest(s[1..], s[0] == DQ);
    UnquoteRestInverts(s[1..], s[0] == DQ);
  }

  /**
   * args_add_q as written, up to its first loop test. `x_malloc(strlen(s) * 2)`
   * allocates `2 * |s|` characters and `*q = *t` stores into the first of
   * them; after `t++` the loop test `*t` reads offset 1 of the `|s| + 1`
   * characters that `s` points at. `None` when either access falls outside
   * its object; otherwise every later access stays inside (`QuoteIntoBuffer`)
   * and the routine yields `Quote(s)`.
   */
  function QuoteAsWritten(s: string): (r: Option<string>)
    ensures r.None? <==> s == []
    ensures r.Some? ==> r.value == QuoteArg(s) && |r.value| < 2 * |s|
  {
    var size := 2 * |s|;
    var text := s + [NUL];
    if size <= 0 then None
    else if |text| <= 1 then None
    else Some(Quote(s))
  }

  /**
   * The quoting as intended for every argument: the empty argument becomes
   * the empty string, any other argument its `Quote`.
   */
  function QuoteArg(s: string): (r: string)
    ensures |s| <= |r| <= 2 * |s|
    ensures r == [] <==> s == []
  {
    if s == [] then [] else Quote(s)
  }

  /** Reads back what `QuoteArg` produced. */
  function UnquoteArg(r: string): string {
    if r == [] then [] else Unquote(r)
  }

  /** The corrected quoting loses nothing, the empty argument included. */
  lemma QuoteArgRoundTrip(s: string)
    ensures UnquoteArg(QuoteArg(s)) == s
  {
    if s != [] {
      QuoteRoundTrip(s);
    }
  }

  /** The empty argument: as written both accesses leave their objects. */
  lemma EmptyArgumentOverruns()
    ensures QuoteAsWritten("") == None
    ensures QuoteArg("") == "" && UnquoteArg(QuoteArg("")) == ""
  {
  }

  lemma {:induction false} QuoteRestSplit(t: string, startQuote: bool)
    requires |t| >= 1
    ensures QuoteRest(t, startQuote) == EscapeAll(t[..|t| - 1]) + Emit(t[|t| - 1], true, startQuote)
    decreases |t|
  {
    if |t| > 1 {
      QuoteRestSplit(t[1..], startQuote);
      assert t[1..][..|t[1..]| - 1] == t[..|t| - 1][1..];
      assert Emit(t[0], false, startQuote) == (if t[0] == DQ then [BS, DQ] else [t[0]]);
    }
  }

  /**
   * The quoting rule position by position: the first character verbatim,
   * every interior '"' escaped, and the last character escaped when it is a
   * '"' unless the string also began with '"'.
   */
  lemma QuoteShape(s: string)
    requires |s| >= 2
    ensures Quote(s) == [s[0]] + EscapeAll(s[1..|s| - 1])
                        + (if s[|s| - 1] == DQ && s[0] != DQ then [BS, DQ] else [s[|s| - 1]])
  {
    QuoteRestSplit(s[1..], s[0] == DQ);
    assert s[1..][..|s[1..]| - 1] == s[1..|s| - 1];
  }

  /** A quoted argument with quotes inside: the enclosing pair stays, the inner ones are escaped. */
  lemma QuoteNestedExample()
    ensures Quote("\"a\"b\"c\"") == "\"a\\\"b\\\"c\""
  {
    var s := "\"a\"b\"c\"";
    QuoteShape(s);
    assert s[1..|s| - 1] == "a\"b\"c";
    assert EscapeAll("c") == "c";
    assert EscapeAll("\"c") == "\\\"c";
    assert EscapeAll("b\"c") == "b\\\"c";
    assert EscapeAll("\"b\"c") == "\\\"b\\\"c";
    assert EscapeAll("a\"b\"c") == "a\\\"b\\\"c";
  }

  /** The examples of the quoting rule: enclosing quotes kept, inner ones escaped. */
  lemma QuoteExamples()
    ensures Quote("\"a\"b\"c\"") == "\"a\\\"b\\\"c\""
    ensures Quote("a\"b") == "a\\\"b"
    ensures Quote("\"\"") == "\"\""
    ensures Quote("\"") == "\""
    ensures Quote("ab\"") == "ab\\\""
  {
    QuoteNestedExample();
    QuoteShape("a\"b");
    assert EscapeAll("\"") == "\\\"";
    QuoteShape("ab\"");
    assert EscapeAll("b") == "b";
  }

  /** One turn of the copy loop: the character at `t` is emitted, then the rest. */
  lemma QuoteStep(s: string, t: nat, startQuote: bool)
    requires NulFree(s) && t < |s|
    ensures (CharAt(s, t + 1) == NUL) <==> t + 1 == |s|
    ensures QuoteRest(s[t..], startQuote)
            == Emit(s[t], CharAt(s, t + 1) == NUL, startQuote) + QuoteRest(s[t + 1..], startQuote)
  {
    if t + 1 < |s| {
      assert s[t + 1] in s;
    }
    assert s[t..][1..] == s[t + 1..];
  }

  lemma Regroup(a: string, b: string, c: string)
    ensures a + (b + c) == (a + b) + c
  {
  }

  /**
   * The C routine itself: it writes into an allocation of `2 * strlen(s)`
   * characters through the cursor `q`; every write lands inside it and the
   * buffer ends up holding the quoted string and its terminator.
   */
  method QuoteIntoBuffer(s: string) returns (p: seq<char>)
    requires |s| > 0 && NulFree(s)
    ensures |p| == 2 * |s|
    ensures |Quote(s)| < |p| && p[..|Quote(s)|] == Quote(s) && p[|Quote(s)|] == NUL
    ensures QuoteAsWritten(s) == Some(p[..|Quote(s)|])
  {
    ghost var goal := Quote(s);
    p := seq(2 * |s|, _ => NUL);
    var startQuote := s[0] == DQ;
    var q := 0;
    p, q := Put(p, q, s[0], []);
    ghost var out := [s[0]];
    var t := 1;
    assert goal == out + QuoteRest(s[t..], startQuote);
    while CharAt(s, t) != NUL
      invariant 1 <= t <= |s| && |p| == 2 * |s|
      invariant q == |out| && q <= |p| && p[..q] == out
      invariant goal == out + QuoteRest(s[t..], startQuote)
      decreases |s| - t
    {
      var last := CharAt(s, t + 1) == NUL;
      QuoteStep(s, t, startQuote);
      ghost var rest := QuoteRest(s[t + 1..], startQuote);
      ghost var piece := Emit(s[t], last, startQuote);
      Regroup(out, piece, rest);
      if s[t] == DQ && (!startQuote || !last) {
        assert piece == [BS, s[t]] && out + piece == (out + [BS]) + [s[t]];
        p, q := Put(p, q, BS, out);
        out := out + [BS];
      } else {
        assert piece == [s[t]];
      }
      p, q := Put(p, q, s[t], out);
      out := out + [s[t]];
      t := t + 1;
    }
    assert s[t..] == [];
    assert goal == out;
    p, q := Put(p, q, NUL, out);
  }
}
