# opts: a verified model of `Get`, the Unicode-aware getopt scanner

This project models `Get` from the Go package `opts`. `Get` is a POSIX
getopt(3)-style short-option parser that works on Unicode code points
rather than bytes. It makes the call `Get(args, optstr)` and returns
`(flags, optind, err)`. The model has two parts.

- **Option-string decoding** (module `OptString`). An option string such
  as `"abλc:dßĦ::"` becomes a table from code point to `ArgMode`:
  - `x` alone means `None`.
  - `x:` means `Required`.
  - `x::` means `Optional`.
  - A single leading `:` is dropped.
  - A later definition of a code point overwrites an earlier one.

  `Definitions`, `TableFrom` and `OptionTable` are the specification.
  `DecodeOptString` is the source's loop, proved equal to it. The lemmas
  show that reading an option string loses nothing (`RenderDefinitions`,
  `DefinitionsOfRender`). They also show that the table holds exactly the
  defined code points, each with the mode of its last definition.
- **Scanning** (modules `Scan` and `ScanProperties`). There is one
  left-to-right pass over `args[1..]`:
  - It stops at the first operand: an empty token, a lone `-`, or a token
    that does not start with `-`.
  - It also stops just after a `--`.
  - It splits every other token after its `-` into a cluster of flags.

  `Cluster`, `ScanFrom` and `GetResult` are the specification. `Get` is
  the source's nested loop with its shared index, `continue` and `break`.
  It is proved to return the triple that `GetResult` describes, with no
  flags and index 0 on an error. `ScanProperties` proves several things:
  how each shape of cluster is decoded, where the scan may stop, that it
  never reads `args[0]` or anything past where it stops, that an unknown
  option aborts whatever follows, and that every returned flag is
  registered. Module `Scenarios` restates each case of the source's test
  suite as a lemma.

Code points are Dafny `char`s, which are Unicode scalar values. Strings
are sequences of them. Errors are the two constructors `BadOptionError(r)`
and `NoArgumentError(r)`, which compare structurally, as the Go values do.

The package comment (opts.go:1-2) announces getopt_long(3) flag parsing
as well, that is GNU-style long options (`--name[=value]`). The version of
`Get` modelled here has none. A token
such as `--foo` that is not exactly `--` goes through the cluster decoder
as the code points `-`, `f`, `o`, `o`. The model follows the code:
`DoubleDashWordIsCluster` shows that such a token fails with
`BadOptionError('-')` unless `-` is registered.

## Model

| member | source | states |
|---|---|---|
| OptString.Definitions | opts.go:71-83 | Reading an option string gives at most one definition per code point, none exactly for the empty string, and the first is for its first code point. `RenderDefinitions` and `DefinitionsOfRender` characterise it fully. |
| OptString.Body | opts.go:68-70 | The body is the option string itself or the string less one leading `:`. It is the string itself exactly when the string is empty or does not start with `:`. |
| OptString.TableFrom | opts.go:74-80 | Entering definitions keeps every key already in the table and registers every defined code point. `TableFromUndefined`, `TableFromLastWins` and `TableFromKeys` characterise it fully. |
| OptString.OptionTable | opts.go:65-83 | Every code point the option string defines, and in particular the first one after any leading `:`, is in the option table. `OptionTableKeys` and `OptionTableLastWins` characterise it fully. |
| OptString.RenderDefinitions | opts.go:71-83 | Spelling out the definitions read from an option string gives the string back, so decoding drops no code point. |
| OptString.DefinitionsOfRender | opts.go:72-82 | An option string written from definitions (no `:` key after the first) is read back as exactly those definitions. `x::` reads as optional, `x:` as required and `x` as none. |
| OptString.TableFromUndefined | opts.go:74-80 | Entering definitions leaves an unmentioned code point's entry, or its absence, unchanged. |
| OptString.TableFromLastWins | opts.go:74-80 | After definitions are entered in order, a code point maps to the mode of its last definition. |
| OptString.TableFromKeys | opts.go:74-80 | Entering definitions adds exactly their code points to the table's keys. |
| OptString.OptionTableKeys | opts.go:65-83 | A code point is in the option table if and only if the option string, leading `:` dropped, defines it. |
| OptString.OptionTableLastWins | opts.go:65-83 | Each code point of the option table has the mode of its last definition in the option string. |
| OptString.OptionTableOfRender | opts.go:50-59 | An option string written from a list of definitions (no `:` key) gives a table whose keys are exactly theirs, each with its last definition's mode. |
| OptString.DecodeOptString | opts.go:65-83 | The decoding loop builds exactly the option table of the option string. It requires a non-empty string. |
| Scan.IsOperand | opts.go:87 | The tokens that stop the scan: an empty token, a lone `-`, or one not starting with `-`. Any other token starts with `-` and has at least one code point after it. `ScanFromStopsAt` proves that a scan stopping early stops at one of these or just after `--`. |
| Scan.Cluster | opts.go:95-118 | Decoding a cluster consumes at most the next argument, never one past the end. It only appends to the flags, at least one flag per non-empty cluster. |
| Scan.ScanFrom | opts.go:85-122 | A successful scan from index `i` returns an `optind` between `i` and the end of `args`, and flags that extend those found before `i`. |
| Scan.GetResult | opts.go:85-122 | On success `optind` is 0 with no flags for empty `args`, and otherwise lies between 1 and `len(args)`. |
| Scan.Get | opts.go:64-123 | The imperative parse returns `GetResult`'s flags and index, or its error with nil flags and index 0. |
| ScanProperties.ClusterNonePrefix | opts.go:111-113 | A run of argument-less code points yields one empty flag each, in order, and decoding continues after the run. |
| ScanProperties.ClusterFrame | opts.go:103-110 | A cluster's decoding depends on no argument except the one it takes as a required value. |
| ScanProperties.ClusterAgree | opts.go:105-110 | Decoding a cluster at `args[i]` reads no argument other than `args[i+1]`. |
| ScanProperties.ClusterRegistered | opts.go:98-116 | Every flag a cluster adds is a registered code point, and one registered without an argument has an empty value. |
| ScanProperties.BundledNoneFlags | opts.go:111-113 | `-xyz` with only argument-less code points gives one empty flag per code point, in order, and scanning resumes at the next token. |
| ScanProperties.AttachedValue | opts.go:103-104 | A code point taking an argument that is not last in its cluster takes the rest of the token verbatim, which is not decoded as flags. Scanning resumes at the next token. |
| ScanProperties.RequiredTakesNext | opts.go:105-110 | A required code point last in its cluster takes the next argument verbatim, and scanning resumes after it. With no next argument the result is `NoArgumentError(r)`. |
| ScanProperties.OptionalLastIsEmpty | opts.go:111-113 | An optional code point last in its cluster gets an empty value and does not consume the next argument. |
| ScanProperties.UnknownAborts | opts.go:101-102 | The first unregistered code point of a cluster fails the parse with `BadOptionError(r)`, whatever follows. |
| ScanProperties.ScanFromAgree | opts.go:85-118 | A scan from index `i` reads no argument before `i`. |
| ScanProperties.ScanFromStopsEarly | opts.go:87-92 | A scan that stops before the end gives the same result on any vector that agrees up to the index where it stopped. |
| ScanProperties.ScanFromBadOptionFinal | opts.go:101-102 | An unknown-option failure is unchanged by appending arguments. |
| ScanProperties.ScanFromStopsAt | opts.go:87-92 | A scan that ends before the last argument ends at an operand, whose index it returns, or just after a `--`. |
| ScanProperties.ScanFromRegistered | opts.go:85-122 | Every flag a scan returns is registered, with an empty value when registered without an argument. |
| ScanProperties.GetIgnoresProgramName | opts.go:85 | `Get` never reads `args[0]`: replacing it changes nothing. |
| ScanProperties.GetIgnoresRest | opts.go:87-92 | Once `Get` stops at an operand or after `--`, no later argument is examined. Vectors that agree on indices 1 through `optind` give the same result. |
| ScanProperties.GetBadOptionFinal | opts.go:101-102 | An unknown option fails `Get` whatever arguments are appended. |
| ScanProperties.GetStopsAt | opts.go:87-92 | If `Get` succeeds with `optind < len(args)`, then `args[optind]` is an operand, or `args[optind-1]` (not the program name) is `--`. |
| ScanProperties.GetFlagsRegistered | opts.go:98-116 | Every flag `Get` returns is registered in the option table, with an empty value when registered without an argument. |
| ScanProperties.DoubleDashWordIsCluster | opts.go:95 | `--foo` is decoded as a cluster starting with `-`, so it fails with `BadOptionError('-')` unless `-` is registered. |
| Scenarios.SampleSpelling | opts_test.go:13 | The test option string spells out seven definitions. |
| Scenarios.SampleReadsAsDefinitions | opts_test.go:13 | The test option string is read as those seven definitions. |
| Scenarios.SampleOptionTable | opts_test.go:13 | `"abλc:dßĦ::"` registers a, b, λ, d and ß without an argument, c as required and Ħ as optional. |
| Scenarios.GetSample | opts_test.go:12-24 | `Get` with the test option string is the scan against that table. |
| Scenarios.NoArg | opts_test.go:26-29 | `[]` gives no flags and index 0. |
| Scenarios.NoFlag | opts_test.go:31-34 | `["foo"]` gives no flags and index 1. |
| Scenarios.CNoArg | opts_test.go:36-39 | `-c` as the last argument fails with `NoArgumentError('c')`. |
| Scenarios.CWithArg | opts_test.go:41-50 | `-c bar` gives `{c,"bar"}` and index 3. |
| Scenarios.CWithArgNoSpace | opts_test.go:52-61 | `-cbar` gives `{c,"bar"}` and index 2. |
| Scenarios.ANoArg | opts_test.go:63-72 | `-a` gives `{a,""}` and index 2. |
| Scenarios.AWithArg | opts_test.go:74-83 | `-a bar` gives `{a,""}` and stops at `bar` (index 2). |
| Scenarios.AAndCWithArg | opts_test.go:85-100 | `-a -c bar` gives `{a,""}`, `{c,"bar"}` and index 4. |
| Scenarios.ACWithArg | opts_test.go:102-117 | `-ac bar` gives `{a,""}`, `{c,"bar"}` and index 3. |
| Scenarios.CAWithArg | opts_test.go:119-128 | `-ca bar` gives `{c,"a"}` and index 2. |
| Scenarios.BAfterDashDash | opts_test.go:130-133 | `-- -b` gives no flags and index 2. |
| Scenarios.CWithArgAfterDashDash | opts_test.go:135-138 | `-- -c bar baz` gives no flags and index 2. |
| Scenarios.CWithArgThenDAfterDashDash | opts_test.go:140-149 | `-c bar baz -- -d` gives `{c,"bar"}` and stops at `baz` (index 3). |
| Scenarios.CWithArgThenDAfterEmpty | opts_test.go:151-160 | `-c bar baz "" -d` gives `{c,"bar"}` and index 3. |
| Scenarios.BChainedThrice | opts_test.go:162-174 | `-bbb` gives three `{b,""}` flags and index 2. |
| Scenarios.SharpSChainedTwice | opts_test.go:176-188 | `-ßß` gives two `{ß,""}` flags and index 2. |
| Scenarios.LambdaAsArgToC | opts_test.go:190-199 | `-c -λ` gives `{c,"-λ"}` and index 3. |
| Scenarios.InvalidFlag | opts_test.go:201-204 | `-X` fails with `BadOptionError('X')`. |
| Scenarios.InvalidFlagWithArg | opts_test.go:206-209 | `-X bar` fails with `BadOptionError('X')`. |
| Scenarios.AAfterArg | opts_test.go:211-214 | `bar -a` gives no flags and index 1. |
| Scenarios.XAfterDash | opts_test.go:216-219 | `- -x` gives no flags and index 1. |
| Scenarios.HWithSpaceAndArg | opts_test.go:221-230 | `-Ħ bar` gives `{Ħ,""}` and index 2. |
| Scenarios.HWithArg | opts_test.go:232-241 | `-Ħbar` gives `{Ħ,"bar"}` and index 2. |
| Scenarios.LambdaHWithArg | opts_test.go:243-258 | `-λĦbar` gives `{λ,""}`, `{Ħ,"bar"}` and index 2. |

## Left out

- Long options are left out. This covers `LongOpt` (declared in opts.go but unused by `Get`), `GetLong` in v2 with its prefix matching, `=value` splitting and rest-slice result, and the v2 error types. Their implementation is not part of this model.
- `Error()` string formatting in err.go is left out. It is presentation through `fmt.Sprintf`; the errors are modelled only as constructors carrying the code point.
- Go panics on an empty `optstr` when it reads the first code point. `DecodeOptString` and `Get` state `|optstr| > 0` as a precondition instead of modelling the crash. The specification functions are total.
- UTF-8 decoding by `[]rune(...)` is left out: invalid bytes becoming U+FFFD, and the byte test `arg[0] != '-'`. Tokens are sequences of code points already. Because `-` is ASCII, testing the first byte and testing the first code point agree.
- Go distinguishes a nil `flags` slice from an empty one. The model returns the empty sequence in both cases, as the tests only compare lengths.
- The scenario lemmas state each test's expected result for the scan against the table of `"abλc:dßĦ::"`. `Scenarios.GetSample` connects that scan to `GetResult` with that option string.
