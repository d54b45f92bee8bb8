# ccache argument vectors, quoting, executable lookup and exit status — a Dafny model

This project models the platform-independent core of ccache's process-execution
layer (the Win32 port of ccache 2.x):

- **The argument vector** of `args.c`. An `ARGS` record holds a pointer array
  whose live strings sit below `argc`, with a NULL sentinel at index `argc`.
  `Args.ArgVec` keeps the whole array slot by slot, so both the sentinel and
  the bounds of every `memmove` are part of the model. Each operation follows
  the C code's `x_realloc`, `memmove` and stores. Its contract states the effect
  on the list of live strings: append, drop the last n, tail, prepend, or
  filter.
- **The double-quote escaping** done by `args_add_q` (`Quote`). The model has a
  pure function, an inverse that deletes the inserted backslashes, and a method
  that writes through a cursor into the `2 * strlen(s)` allocation, as the C
  code does.
- **`argvtos`** of `execute.c` (`CommandLine`). It joins the arguments into one
  command line of `"arg" ` groups inside an allocation sized by a first pass.
  The model also has a reader that takes the groups back apart.
- **The POSIX branch of `find_executable`** (`PathSearch`). The environment is
  a map and the file system a record of the four queries (`access`, `lstat`,
  `stat`, `realpath`). The search path is split the way `strtok` splits it,
  and a reference split at every `:` is given alongside. The result is the
  first accepted candidate.
- **The exit-status mapping** after `waitpid` (`WaitStatus`). Status words are
  decoded with the Linux/glibc `<sys/wait.h>` layout.

Strings are `seq<char>` holding the characters before the terminator, so a C
string is a string without NUL (`CString.NulFree`). `Nullable.Option` stands
for a pointer that may be NULL.

Files: `nullable.dfy`, `cstring.dfy`, `quote.dfy`, `args.dfy`, `cmdline.dfy`,
`pathsearch.dfy`, `waitstatus.dfy`.

Behaviour of the C code that is easy to overlook:
- The quoting allocation is `2 * strlen(s)` bytes, with no separate byte for
  the terminator. The model proves that this is enough for every non-empty
  argument.
- For the empty argument the quoting routine stores the terminator outside
  its zero-byte allocation and then reads past the argument's terminator
  (see "## Findings"). `Quote.Quote` is the routine on non-empty arguments;
  `Quote.QuoteArg` extends it with the evidently intended result for `""`,
  and the vector operations use that.
- An executable is accepted only when `lstat` succeeds as well as `stat`.
- A symlink to an executable regular file whose `realpath` fails is accepted,
  not skipped. A dangling symlink, whose `stat` fails, is skipped.

## Model

| member | source | states |
|---|---|---|
| `CString.StrncmpIsPrefixTest` | args.c:130 | For C strings, `strncmp(s, p, strlen(p)) == 0` holds exactly when `p` is a prefix of `s`. |
| `CString.Basename` | execute.c:207 | The base name is the longest suffix of the path without '/'. It is either the whole path or is preceded by a '/'. |
| `Quote.Quote` | args.c:57-74 | The first character is copied unchanged. The output is at least as long as the input and at most `2*len-1` long, so with its terminator it fits the `strlen(s)*2` allocation. |
| `Quote.QuoteRest` | args.c:64-73 | In total, the copy loop's output is at least as long as its input and at most twice as long. |
| `Quote.QuoteIdentity` | args.c:64-73 | An argument without '"' is returned unchanged. |
| `Quote.QuoteShape` | args.c:59-73 | The first character is verbatim. Every interior '"' gets a backslash. A final '"' gets one unless the argument also began with '"'. |
| `Quote.QuoteRoundTrip` | args.c:57-74 | Deleting the inserted backslashes (`Unquote`) gives back the original argument. |
| `Quote.QuoteNulFree` | args.c:57-74 | Quoting a C string introduces no NUL, so the result is again a C string. |
| `Quote.QuoteExamples` | args.c:57-74 | Worked examples: `"a"b"c"` becomes `"a\"b\"c"`, `a"b` becomes `a\"b`, `""` is kept, a lone `"` is kept, and `ab"` becomes `ab\"`. |
| `Quote.QuoteIntoBuffer` | args.c:52-74 | Every cursor write lands inside the `2*strlen(s)` buffer. The buffer ends up holding exactly `Quote(s)` followed by the terminator. The as-written model `QuoteAsWritten` yields exactly this buffer content. |
| `Quote.QuoteAsWritten` | args.c:51-64 | As written, the routine fails exactly on the empty argument: the store into the `2*strlen(s)` allocation or the first loop read falls outside its object. For every other argument the result is the quoted copy, which fits strictly inside the allocation. |
| `Quote.QuoteArg` | args.c:47-78 | The quoting as intended for every argument: the empty argument becomes the empty string and no other argument does, and the length lies between `strlen(s)` and `2*strlen(s)`. |
| `Quote.QuoteArgRoundTrip` | args.c:47-78 | Reading the corrected quoting back gives every argument back, the empty one included. |
| `Quote.EmptyArgumentOverruns` | args.c:51-64 | On `""` the routine as written overruns, while the corrected quoting yields `""`, which reads back as `""`. |
| `Args.Empty` | args.c:27-30 | A fresh vector has no strings and its sentinel is at index 0. |
| `Args.Add` | args.c:38-44 | `args_add` appends `s` after the existing strings, which are unchanged. `argc` grows by one, the sentinel moves to the new `argc`, and the array is exactly `argc+1` slots. |
| `Args.AddQuoted` | args.c:47-78 | `args_add_q` appends the quoted copy of `s` (`QuoteArg`), with the same slot handling as `args_add`. The new string reads back as `s`. |
| `Args.AddAll` | args.c:31-33 | Adding strings one by one appends them all, in order, and keeps the allocation tight. |
| `Args.Init` | args.c:23-35 | `args_init(n, l)` holds exactly `l[0..n)` in order (nothing when `n <= 0`), with `argc == n` and the sentinel at `n`. |
| `Args.InitQuoted` | args.c:81-93 | `args_init_q(n, l)` holds `n` strings, and the i-th is `QuoteArg(l[i])`. |
| `Args.Pop` | args.c:96-103 | `args_pop(n)` with `0 <= n <= argc` leaves the first `argc-n` strings. The freed slots and the sentinel are NULL, and slots above the old sentinel and the allocation size are unchanged. |
| `Args.RemoveFirst` | args.c:106-113 | `args_remove_first` on a non-empty vector leaves the tail of the old list, and the sentinel moves down with it. |
| `Args.AddPrefix` | args.c:116-123 | `args_add_prefix(s)` yields `[s]` followed by the old list, with the sentinel at the new `argc`. |
| `Args.KeepMembers` | args.c:126-140 | A string survives stripping exactly when it is in the list and does not start with the prefix. |
| `Args.KeepAppend` | args.c:126-140 | Filtering commutes with concatenation, so survivors keep their relative order. |
| `Args.RemoveAt` | args.c:131-135 | Moving the `argc-i` slots above `i` down by one drops exactly the i-th string and keeps the sentinel. |
| `Args.StripFrom` | args.c:129-139 | From index `i`, the loop keeps the first `i` strings and filters the rest. |
| `Args.Strip` | args.c:126-140 | `args_strip(prefix)` leaves exactly the strings that do not start with `prefix`, in their original order. The sentinel follows them and the allocation size is unchanged. |
| `Args.StripLeavesNoMatch` | args.c:129-139 | No string left after stripping starts with the prefix. |
| `Args.StripEmptyPrefix` | args.c:130 | Stripping the empty prefix removes every string. |
| `Args.StripIdempotent` | args.c:126-140 | Stripping twice with the same prefix gives the same list as stripping once. |
| `Args.StripExample` | args.c:126-140 | Stripping `-I` from `["-I/x", "-O2", "-Ifoo"]` leaves `["-O2"]`. |
| `Args.StripFromAsWritten` | args.c:132-134 | As written, the move covers `argc` slots. When it stays inside the allocation, the outcome is the intended filter. |
| `Args.StripAsWrittenOverruns` | args.c:132-134 | For `args_init(2, ["x", "-Ib"])` stripped of `-I`, the as-written move leaves the array, while the corrected strip yields `["x"]`. |
| `Args.StripAsWrittenOverrunsTight` | args.c:126-140 | In every tightly allocated vector whose first string survives and whose second is stripped, the as-written move leaves the array. |
| `CommandLine.JoinLength` | execute.c:27-31 | The length summed by the first loop, `Σ(strlen+3)`, equals the length of the joined command line. |
| `CommandLine.Argvtos` | execute.c:22-46 | Every write lands inside the `len+1` allocation. The result is the concatenation of `"arg" ` over all arguments, in order, plus the terminator, and fills the allocation exactly. |
| `CommandLine.SplitJoin` | execute.c:35-42 | For arguments without '"', reading the command line back yields the original argument array. |
| `PathSearch.FieldsRoundTrip` | execute.c:194 | Joining the fields of the search path with ':' gives the path back, so the reference split loses nothing. |
| `PathSearch.FieldsHaveNoSeparator` | execute.c:194 | No field of the reference split contains ':'. |
| `PathSearch.StrtokSkipsEmptyFields` | execute.c:194 | The `strtok` tokens are the ':'-separated fields with the empty ones left out (leading, trailing and between adjacent ':'), in order. |
| `PathSearch.StrtokTokens` | execute.c:194 | Every token is non-empty and contains no ':'. |
| `PathSearch.FirstMatch` | execute.c:194-226 | The result is NULL exactly when no directory's candidate is accepted. Otherwise it is `dir/name` for an accepted `dir`, and no earlier directory's candidate is accepted. A candidate is accepted (`Accepted`, execute.c:198-216) when `access(X_OK)`, `lstat` and `stat` all succeed and `stat` reports a regular file, unless `lstat` reports a symlink whose realpath succeeds and has base name `exclude`. A failing realpath therefore counts as accepted. |
| `PathSearch.FindExecutable` | execute.c:177-188 | A name starting with '/' is returned unchanged. With neither CCACHE_PATH nor PATH set, the result is NULL. |
| `PathSearch.FindExecutableSearches` | execute.c:181-226 | For a relative name, the result is `dir/name` for the first non-empty field `dir` of CCACHE_PATH (else PATH) whose candidate is accepted. It is NULL when there is no such field. |
| `PathSearch.CcachePathPreferred` | execute.c:181-184 | When CCACHE_PATH is set, the value of PATH does not affect the result. |
| `PathSearch.SelfExclusion` | execute.c:196-221 | Setup: PATH is `a:b`, `a/cc` is a symlink to a program named `cc`, and `b/cc` is a regular executable. Looking up `cc` while excluding `cc` returns `b/cc`. |
| `PathSearch.UnresolvableSymlinkAccepted` | execute.c:198-221 | A symlink to an executable regular file whose realpath fails skips the exclusion test, and the first directory's candidate is returned. |
| `PathSearch.DanglingSymlinkSkipped` | execute.c:198-201 | A dangling symlink (`lstat` succeeds, `stat` fails) in the first directory is not accepted, and the search continues with the remaining directories. |
| `WaitStatus.Normalize` | execute.c:147-151 | The result is -1 exactly when the exit byte is 0 and the child was signalled. Otherwise it is `WEXITSTATUS(status)`, which lies in 0..255. |
| `WaitStatus.NormalizeDecodes` | execute.c:147-151 | A child that exits with code c yields c. A child killed by a signal yields -1, never a value in 0..255. |
| `WaitStatus.StaleExitBits` | execute.c:147-151 | A word with signal bits set and a non-zero exit byte reports the exit byte, not -1. |

## Left out

- The process plumbing of `execute` on POSIX (execute.c:115-145) is left out. This covers `fork`, the `unlink`/`open`/`dup2` redirection in the child, `execv`, `waitpid` and the `fatal` calls. It is operating-system process control; only the status mapping after it is modelled.
- The Win32 `execute` (execute.c:57-112) is left out: `_spawnv`, `_dup`/`_dup2` save and restore, and its `(status>0)` return. It depends on the platform. Its argument marshalling is `args_init_q`, which is modelled.
- The Win32 `find_executable` (execute.c:161-171) is left out. It is a thin wrapper over `SearchPathA`, which is not part of this model.
- `cc_log` and `fatal` are left out. They are logging and aborting with no effect on results.
- `x_malloc`, `x_realloc`, `x_strdup` and `x_asprintf` are taken to succeed. They abort on failure.
- `argvtos`'s own `malloc` returning NULL is not modelled, because allocation is assumed to succeed.
- Memory ownership is not modelled: `free`, the deep copies, and the leak at args.c:51. With value semantics every stored string is an independent copy.
- Slots that `x_realloc` adds are NULL in `Args.Realloc`, although in C they are uninitialised. Every operation overwrites them before reading.
- The file system and environment are parameters: `access`, `lstat`, `stat` and `realpath` are fields of `PathSearch.FileSystem`, and the environment is a `map`. Real queries are outside the model.
- `str_basename` lives in util.c, which is not part of this model. `CString.Basename` takes it to return the text after the last '/'.
- `WIFSIGNALED` and `WEXITSTATUS` come from the system headers, which are not part of this model. The Linux/glibc layout is assumed.
- 32-bit `int` overflow is not modelled: not in `argc`, and not in `argvtos`'s `len`. Counts and lengths are unbounded integers.
- Strings with an embedded NUL cannot be C strings and are not considered. `Quote.QuoteIntoBuffer` and `CString.StrncmpIsPrefixTest` require `NulFree`.
- Args.Pop: requires `0 <= n <= argc`. The C loop `while (n--)` has no check: a larger `n` drives `argc` below 0, and a negative `n` never stops before it does. Both are undefined behaviour, so they have no result to model.
- Quote.Quote: requires a non-empty argument. On the empty string the C code copies the terminator and then reads beyond it, so that case has no defined result. `Quote.QuoteArg` supplies the intended result, and the defect is recorded under "## Findings".

## Findings

| source | as written | input that shows it | evidently intended | confidence | as-written member | corrected member |
|---|---|---|---|---|---|---|
| args.c:132-134 | `args_strip` removes the string at index `i` with `memmove(&argv[i], &argv[i+1], argc * sizeof(argv[i]))`. That moves `argc` slots, but only `argc - i` slots (up to and including the sentinel) lie above `i`. For `i > 0` it reads past the end of the pointer array, and for `i > 1` it also writes past it. | `args_init(2, {"x", "-Ib"})`, whose array has 3 slots, then `args_strip(args, "-I")`. At `i = 1` the move reads slots 2 and 3, and slot 3 lies outside the array. | Move `argc - i` slots, the remaining strings plus the sentinel. The result is the filtered list, in order, with the sentinel after it. | high (not executed) | `Args.StripFromAsWritten`, `Args.StripAsWrittenOverruns`, `Args.StripAsWrittenOverrunsTight` | `Args.RemoveAt`, `Args.Strip` |
| args.c:51-64 | `args_add_q` allocates `strlen(s) * 2` bytes. For `""` that is `x_malloc(0)`, yet `*q = *t` stores the terminator into it. After `t++` the loop test `*t` reads the byte after the argument's terminator. The routine is reached for every argument through `args_init_q` (args.c:89-91), which execute.c:97 applies to the compiler's whole argument list, so an empty argument triggers it. | `args_add_q(args, "")`: the store into the 0-byte buffer and the read of `s[1]`, one past the terminator. | An empty argument is stored as an empty string, and no access leaves its object. | high (not executed) | `Quote.QuoteAsWritten`, `Quote.EmptyArgumentOverruns` | `Quote.QuoteArg`, `Quote.QuoteArgRoundTrip`, `Args.AddQuoted` |
