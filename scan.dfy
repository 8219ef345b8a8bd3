/**
 * The argument scanner of `Get`: one left-to-right pass over `args[1..]`
 * that stops at the first operand (an empty token, a lone `-`, or a token
 * not starting with `-`) or just after a `--`, and splits every other
 * token after its leading `-` into a cluster of single-code-point flags.
 */
module Scan {
  import opened OptTypes
  import opened OptString
  import Wrappers

  /** A token that ends option scanning and is itself left to the caller. */
  predicate IsOperand(arg: string)
    ensures !IsOperand(arg) ==> |arg| >= 2 && arg[0] == '-'
  {
    |arg| == 0 || arg == "-" || arg[0] != '-'
  }

  /** The outcome of decoding one cluster: the index of the last argument it used and the flags so far. */
  datatype Decoded = Decoded(last: nat, flags: seq<Flag>) | Failed(error: OptError)

  /**
   * Decodes the code points `rs` of a cluster found at `args[i]`, appending
   * flags to `acc`.  A code point without argument gives a flag with an
   * empty value and decoding goes on; one taking an argument that is not
   * last takes the rest of the token as its value and ends the cluster; a
   * required one that is last takes `args[i + 1]` whatever it holds; an
   * optional one that is last gets an empty value.
   */
  function Cluster(t: Table, args: seq<string>, i: nat, rs: seq<char>, acc: seq<Flag>): (d: Decoded)
    requires i < |args|
    ensures d.Decoded? ==> i <= d.last <= i + 1 && d.last < |args| && acc <= d.flags
    ensures d.Decoded? && rs != [] ==> |d.flags| > |acc|
    decreases |rs|
  {
    if rs == [] then Decoded(i, acc)
    else
      var r := rs[0];
      if r !in t then Failed(BadOptionError(r))
      else if t[r] != None && |rs| > 1 then Decoded(i, acc + [Flag(r, rs[1..])])
      else if t[r] == Required then
        if i + 1 >= |args| then Failed(NoArgumentError(r)) else Decoded(i + 1, acc + [Flag(r, args[i + 1])])
      else Cluster(t, args, i, rs[1..], acc + [Flag(r, "")])
  }

  /**
   * Scans `args` from index `i` with the flags `acc` found so far.  On
   * success `optind` is the index of the first argument not consumed,
   * never before `i` and never past the end of `args`, and the flags
   * extend `acc`.
   */
  function ScanFrom(t: Table, args: seq<string>, i: nat, acc: seq<Flag>): (res: Result)
    requires 1 <= i
    ensures res.Ok? ==> (if i <= |args| then i else |args|) <= res.optind <= |args| && acc <= res.flags
    decreases |args| - i
  {
    if i >= |args| then Ok(acc, |args|)
    else
      var arg := args[i];
      if IsOperand(arg) then Ok(acc, i)
      else if arg == "--" then Ok(acc, i + 1)
      else
        match Cluster(t, args, i, arg[1..], acc)
        case Failed(e) => Err(e)
        case Decoded(last, flags) => ScanFrom(t, args, last + 1, flags)
  }

  /**
   * What `Get(args, optstr)` returns.  `args[0]` is the program name and is
   * not scanned; on success `optind` is 0 only for an empty `args` and
   * otherwise lies between 1 and `|args|`.
   */
  function GetResult(args: seq<string>, optstr: string): (res: Result)
    ensures res.Ok? && |args| == 0 ==> res.optind == 0 && res.flags == []
    ensures res.Ok? && |args| > 0 ==> 1 <= res.optind <= |args|
  {
    ScanFrom(OptionTable(optstr), args, 1, [])
  }

  /**
   * Parses `args` against the option string `optstr`, as the source's `Get`
   * does: it builds the option table, then scans with one shared index,
   * growing `flags` as it goes.  On an error it returns no flags and index
   * 0 with the error; otherwise it returns the flags and the index of the
   * first argument not consumed.
   */
  method Get(args: seq<string>, optstr: string) returns (flags: seq<Flag>, optind: nat, err: Wrappers.Option<OptError>)
    requires |optstr| > 0
    ensures err.None? ==> GetResult(args, optstr) == Ok(flags, optind)
    ensures err.Some? ==> GetResult(args, optstr) == Err(err.value) && flags == [] && optind == 0
  {
    var argmap := DecodeOptString(optstr);
    flags := [];
    var i := 1;
    while i < |args|
      invariant 1 <= i
      invariant ScanFrom(argmap, args, i, flags) == GetResult(args, optstr)
      decreases |args| - i
    {
      var arg := args[i];
      if |arg| == 0 || arg == "-" || arg[0] != '-' {
        return flags, i, Wrappers.None;
      } else if arg == "--" {
        return flags, i + 1, Wrappers.None;
      }

      var rs := arg[1..];
      ghost var i0, flags0 := i, flags;
      for j := 0 to |rs|
        invariant i == i0
        invariant Cluster(argmap, args, i0, rs[j..], flags) == Cluster(argmap, args, i0, rs, flags0)
      {
        var r := rs[j];
        var s: string;
        if r !in argmap {
          return [], 0, Wrappers.Some(BadOptionError(r));
        }
        var am := argmap[r];
        if am != None && j < |rs| - 1 {
          s := rs[j + 1..];
        } else if am == Required {
          i := i + 1;
          if i >= |args| {
            return [], 0, Wrappers.Some(NoArgumentError(r));
          }
          s := args[i];
        } else {
          flags := flags + [Flag(r, "")];
          continue;
        }
        flags := flags + [Flag(r, s)];
        break;
      }
      i := i + 1;
    }
    optind := |args|;
    err := Wrappers.None;
  }
}
