/**
 * What the scanner promises, stated over the specification functions of
 * module Scan: how each shape of cluster is decoded, where scanning stops,
 * which arguments it never looks at, and what the flags it returns hold.
 */
module ScanProperties {
  import opened OptTypes
  import opened OptString
  import opened Scan

  /** Every code point of `pre` is registered without argument. */
  predicate AllNone(t: Table, pre: seq<char>)
  {
    forall k :: 0 <= k < |pre| ==> pre[k] in t && t[pre[k]] == None
  }

  /** The flags a run of argument-less code points gives: one empty-valued flag each, in order. */
  function NoneFlags(pre: seq<char>): (fs: seq<Flag>)
    ensures |fs| == |pre|
    ensures forall k :: 0 <= k < |pre| ==> fs[k] == Flag(pre[k], "")
  {
    seq(|pre|, k requires 0 <= k < |pre| => Flag(pre[k], ""))
  }

  /** Every flag in `fs` is registered in `t`, and a flag registered without argument has an empty value. */
  predicate Registered(t: Table, fs: seq<Flag>)
  {
    forall k :: 0 <= k < |fs| ==> fs[k].key in t && (t[fs[k].key] == None ==> fs[k].value == "")
  }

  // ---------------------------------------------------------------------
  // The cluster decoder

  /** A run of argument-less code points is decoded into one empty flag each, and decoding continues after it. */
  lemma {:induction false} ClusterNonePrefix(t: Table, args: seq<string>, i: nat, pre: seq<char>, rest: seq<char>, acc: seq<Flag>)
    requires i < |args|
    requires AllNone(t, pre)
    ensures Cluster(t, args, i, pre + rest, acc) == Cluster(t, args, i, rest, acc + NoneFlags(pre))
    decreases |pre|
  {
    if pre == [] {
      assert pre + rest == rest;
      assert acc + NoneFlags(pre) == acc;
    } else {
      var r := pre[0];
      assert (pre + rest)[0] == r;
      assert (pre + rest)[1..] == pre[1..] + rest;
      assert AllNone(t, pre[1..]) by {
        forall k | 0 <= k < |pre[1..]| ensures pre[1..][k] in t && t[pre[1..][k]] == None {
          assert pre[1..][k] == pre[k + 1];
        }
      }
      ClusterNonePrefix(t, args, i, pre[1..], rest, acc + [Flag(r, "")]);
      assert acc + [Flag(r, "")] + NoneFlags(pre[1..]) == acc + NoneFlags(pre);
    }
  }

  /**
   * Decoding a cluster does not depend on the arguments around it, except
   * for the one argument it takes as a required value.
   */
  lemma {:induction false} ClusterFrame(t: Table, a: seq<string>, b: seq<string>, i: nat, rs: seq<char>, acc: seq<Flag>)
    requires i < |a| && i < |b|
    requires Cluster(t, a, i, rs, acc).Decoded? ==>
               Cluster(t, a, i, rs, acc).last < |b| && b[Cluster(t, a, i, rs, acc).last] == a[Cluster(t, a, i, rs, acc).last]
    requires Cluster(t, a, i, rs, acc).Failed? ==> Cluster(t, a, i, rs, acc).error.BadOptionError?
    ensures Cluster(t, b, i, rs, acc) == Cluster(t, a, i, rs, acc)
    decreases |rs|
  {
    if rs != [] {
      var r := rs[0];
      if r in t && !(t[r] != None && |rs| > 1) && t[r] != Required {
        ClusterFrame(t, a, b, i, rs[1..], acc + [Flag(r, "")]);
      }
    }
  }

  /** Decoding a cluster only reads `args[i + 1]`, so it gives the same result on any argument vector that agrees there. */
  lemma {:induction false} ClusterAgree(t: Table, a: seq<string>, b: seq<string>, i: nat, rs: seq<char>, acc: seq<Flag>)
    requires i < |a| && |a| == |b|
    requires i + 1 < |a| ==> a[i + 1] == b[i + 1]
    ensures Cluster(t, b, i, rs, acc) == Cluster(t, a, i, rs, acc)
    decreases |rs|
  {
    if rs != [] {
      var r := rs[0];
      if r in t && !(t[r] != None && |rs| > 1) && t[r] != Required {
        ClusterAgree(t, a, b, i, rs[1..], acc + [Flag(r, "")]);
      }
    }
  }

  /** Every flag a cluster adds is registered, and one registered without argument has an empty value. */
  lemma {:induction false} ClusterRegistered(t: Table, args: seq<string>, i: nat, rs: seq<char>, acc: seq<Flag>)
    requires i < |args|
    requires Registered(t, acc)
    ensures Cluster(t, args, i, rs, acc).Decoded? ==> Registered(t, Cluster(t, args, i, rs, acc).flags)
    decreases |rs|
  {
    if rs != [] {
      var r := rs[0];
      if r in t && !(t[r] != None && |rs| > 1) && t[r] != Required {
        ClusterRegistered(t, args, i, rs[1..], acc + [Flag(r, "")]);
      }
    }
  }

  // ---------------------------------------------------------------------
  // One token of the scan

  /** `-xyz` with every code point argument-less gives one empty flag per code point, in order, and scanning goes on with the next token. */
  lemma BundledNoneFlags(t: Table, args: seq<string>, i: nat, acc: seq<Flag>, pre: seq<char>)
    requires 1 <= i < |args|
    requires args[i] == ['-'] + pre && pre != [] && args[i] != "--"
    requires AllNone(t, pre)
    ensures ScanFrom(t, args, i, acc) == ScanFrom(t, args, i + 1, acc + NoneFlags(pre))
  {
    assert args[i][1..] == pre + [];
    ClusterNonePrefix(t, args, i, pre, [], acc);
  }

  /**
   * A code point taking an argument that is not last in its cluster takes
   * the rest of the token verbatim as its value; the rest is not decoded as
   * flags and scanning goes on with the next token.
   */
  lemma AttachedValue(t: Table, args: seq<string>, i: nat, acc: seq<Flag>, pre: seq<char>, r: char, rest: seq<char>)
    requires 1 <= i < |args|
    requires args[i] == ['-'] + pre + [r] + rest && rest != []
    requires AllNone(t, pre) && r in t && t[r] != None
    ensures ScanFrom(t, args, i, acc) == ScanFrom(t, args, i + 1, acc + NoneFlags(pre) + [Flag(r, rest)])
  {
    var arg := args[i];
    assert arg[1..] == pre + ([r] + rest);
    assert !IsOperand(arg) by { assert arg[0] == '-'; assert |arg| >= 3; }
    assert arg != "--" by { assert |arg| >= 3; }
    ClusterNonePrefix(t, args, i, pre, [r] + rest, acc);
    assert ([r] + rest)[1..] == rest;
  }

  /**
   * A required code point that is last in its cluster takes the next
   * argument verbatim as its value, and scanning resumes after that
   * argument; with no next argument the parse fails for that code point.
   */
  lemma RequiredTakesNext(t: Table, args: seq<string>, i: nat, acc: seq<Flag>, pre: seq<char>, r: char)
    requires 1 <= i < |args|
    requires args[i] == ['-'] + pre + [r] && args[i] != "--"
    requires AllNone(t, pre) && r in t && t[r] == Required
    ensures i + 1 < |args| ==>
              ScanFrom(t, args, i, acc) == ScanFrom(t, args, i + 2, acc + NoneFlags(pre) + [Flag(r, args[i + 1])])
    ensures i + 1 == |args| ==> ScanFrom(t, args, i, acc) == Err(NoArgumentError(r))
  {
    var arg := args[i];
    assert arg[1..] == pre + [r];
    assert !IsOperand(arg) by { assert arg[0] == '-'; assert |arg| >= 2; }
    ClusterNonePrefix(t, args, i, pre, [r], acc);
  }

  /** An optional code point that is last in its cluster gets an empty value and does not take the next argument. */
  lemma OptionalLastIsEmpty(t: Table, args: seq<string>, i: nat, acc: seq<Flag>, pre: seq<char>, r: char)
    requires 1 <= i < |args|
    requires args[i] == ['-'] + pre + [r] && args[i] != "--"
    requires AllNone(t, pre) && r in t && t[r] == Optional
    ensures ScanFrom(t, args, i, acc) == ScanFrom(t, args, i + 1, acc + NoneFlags(pre) + [Flag(r, "")])
  {
    var arg := args[i];
    assert arg[1..] == pre + [r];
    assert !IsOperand(arg) by { assert arg[0] == '-'; assert |arg| >= 2; }
    ClusterNonePrefix(t, args, i, pre, [r], acc);
    assert Cluster(t, args, i, [r], acc + NoneFlags(pre))
        == Cluster(t, args, i, [], acc + NoneFlags(pre) + [Flag(r, "")]);
  }

  /** The first unregistered code point of a cluster fails the whole parse, whatever follows it. */
  lemma UnknownAborts(t: Table, args: seq<string>, i: nat, acc: seq<Flag>, pre: seq<char>, r: char, rest: seq<char>)
    requires 1 <= i < |args|
    requires args[i] == ['-'] + pre + [r] + rest && args[i] != "--"
    requires AllNone(t, pre) && r !in t
    ensures ScanFrom(t, args, i, acc) == Err(BadOptionError(r))
  {
    var arg := args[i];
    assert arg[1..] == pre + ([r] + rest);
    assert !IsOperand(arg) by { assert arg[0] == '-'; assert |arg| >= 2; }
    ClusterNonePrefix(t, args, i, pre, [r] + rest, acc);
  }

  // ---------------------------------------------------------------------
  // The whole scan

  /** The scan only reads arguments from index `i` on. */
  lemma {:induction false} ScanFromAgree(t: Table, a: seq<string>, b: seq<string>, i: nat, acc: seq<Flag>)
    requires 1 <= i && |a| == |b|
    requires forall k :: i <= k < |a| ==> a[k] == b[k]
    ensures ScanFrom(t, b, i, acc) == ScanFrom(t, a, i, acc)
    decreases |a| - i
  {
    if i < |a| && !IsOperand(a[i]) && a[i] != "--" {
      ClusterAgree(t, a, b, i, a[i][1..], acc);
      match Cluster(t, a, i, a[i][1..], acc)
      case Failed(_) =>
      case Decoded(last, flags) => ScanFromAgree(t, a, b, last + 1, flags);
    }
  }

  /**
   * A scan that stops before the end of the arguments reads none past the
   * index it stops at: any argument vector agreeing up to there gives the
   * same flags and index.
   */
  lemma {:induction false} ScanFromStopsEarly(t: Table, a: seq<string>, b: seq<string>, i: nat, acc: seq<Flag>)
    requires 1 <= i
    requires ScanFrom(t, a, i, acc).Ok? && ScanFrom(t, a, i, acc).optind < |a|
    requires |b| > ScanFrom(t, a, i, acc).optind
    requires forall k :: i <= k <= ScanFrom(t, a, i, acc).optind ==> a[k] == b[k]
    ensures ScanFrom(t, b, i, acc) == ScanFrom(t, a, i, acc)
    decreases |a| - i
  {
    if !IsOperand(a[i]) && a[i] != "--" {
      var d := Cluster(t, a, i, a[i][1..], acc);
      assert b[i] == a[i];
      ClusterFrame(t, a, b, i, a[i][1..], acc);
      ScanFromStopsEarly(t, a, b, d.last + 1, d.flags);
    }
  }

  /** An unregistered code point fails the parse whatever arguments are appended after the vector. */
  lemma {:induction false} ScanFromBadOptionFinal(t: Table, a: seq<string>, more: seq<string>, i: nat, acc: seq<Flag>)
    requires 1 <= i
    requires ScanFrom(t, a, i, acc).Err? && ScanFrom(t, a, i, acc).error.BadOptionError?
    ensures ScanFrom(t, a + more, i, acc) == ScanFrom(t, a, i, acc)
    decreases |a| - i
  {
    var b := a + more;
    assert i < |a| && !IsOperand(a[i]) && a[i] != "--";
    assert b[i] == a[i];
    var d := Cluster(t, a, i, a[i][1..], acc);
    ClusterFrame(t, a, b, i, a[i][1..], acc);
    if d.Decoded? {
      assert ScanFrom(t, a, i, acc) == ScanFrom(t, a, d.last + 1, d.flags);
      ScanFromBadOptionFinal(t, a, more, d.last + 1, d.flags);
    }
  }

  /**
   * A scan that ends before the last argument ends either at an operand,
   * whose index it returns, or just after a `--`.
   */
  lemma {:induction false} ScanFromStopsAt(t: Table, a: seq<string>, i: nat, acc: seq<Flag>)
    requires 1 <= i
    requires ScanFrom(t, a, i, acc).Ok? && ScanFrom(t, a, i, acc).optind < |a|
    ensures var n := ScanFrom(t, a, i, acc).optind;
      IsOperand(a[n]) || (i < n && a[n - 1] == "--")
    decreases |a| - i
  {
    if !IsOperand(a[i]) && a[i] != "--" {
      var d := Cluster(t, a, i, a[i][1..], acc);
      ScanFromStopsAt(t, a, d.last + 1, d.flags);
    }
  }

  /** Every flag the scan finds is registered; those registered without argument have empty values. */
  lemma {:induction false} ScanFromRegistered(t: Table, a: seq<string>, i: nat, acc: seq<Flag>)
    requires 1 <= i
    requires Registered(t, acc)
    ensures ScanFrom(t, a, i, acc).Ok? ==> Registered(t, ScanFrom(t, a, i, acc).flags)
    decreases |a| - i
  {
    if i < |a| && !IsOperand(a[i]) && a[i] != "--" {
      ClusterRegistered(t, a, i, a[i][1..], acc);
      match Cluster(t, a, i, a[i][1..], acc)
      case Failed(_) =>
      case Decoded(last, flags) => ScanFromRegistered(t, a, last + 1, flags);
    }
  }

  // ---------------------------------------------------------------------
  // The same facts about Get

  /** `Get` never looks at the program name `args[0]`. */
  lemma GetIgnoresProgramName(args: seq<string>, optstr: string, p: string)
    requires |args| > 0
    ensures GetResult([p] + args[1..], optstr) == GetResult(args, optstr)
  {
    ScanFromAgree(OptionTable(optstr), args, [p] + args[1..], 1, []);
  }

  /**
   * Once `Get` stops at an operand or after `--`, no later argument is
   * examined: replacing or dropping everything after index `optind`, and
   * the program name, changes nothing.
   */
  lemma GetIgnoresRest(args: seq<string>, b: seq<string>, optstr: string)
    requires GetResult(args, optstr).Ok? && GetResult(args, optstr).optind < |args|
    requires |b| > GetResult(args, optstr).optind
    requires forall k :: 1 <= k <= GetResult(args, optstr).optind ==> b[k] == args[k]
    ensures GetResult(b, optstr) == GetResult(args, optstr)
  {
    ScanFromStopsEarly(OptionTable(optstr), args, b, 1, []);
  }

  /** An unknown option fails `Get` whatever arguments follow. */
  lemma GetBadOptionFinal(args: seq<string>, more: seq<string>, optstr: string)
    requires GetResult(args, optstr).Err? && GetResult(args, optstr).error.BadOptionError?
    ensures GetResult(args + more, optstr) == GetResult(args, optstr)
  {
    ScanFromBadOptionFinal(OptionTable(optstr), args, more, 1, []);
  }

  /** When `Get` succeeds short of the end, `args[optind]` is an operand or `args[optind - 1]` is `--` (and not the program name). */
  lemma GetStopsAt(args: seq<string>, optstr: string)
    requires GetResult(args, optstr).Ok? && GetResult(args, optstr).optind < |args|
    ensures var n := GetResult(args, optstr).optind;
      IsOperand(args[n]) || (1 < n && args[n - 1] == "--")
  {
    ScanFromStopsAt(OptionTable(optstr), args, 1, []);
  }

  /** Every flag `Get` returns is a registered code point, with an empty value if it takes no argument. */
  lemma GetFlagsRegistered(args: seq<string>, optstr: string)
    ensures GetResult(args, optstr).Ok? ==> Registered(OptionTable(optstr), GetResult(args, optstr).flags)
  {
    ScanFromRegistered(OptionTable(optstr), args, 1, []);
  }

  /**
   * A token such as `--foo` is not a long option here: it is decoded as
   * the cluster `-`, `f`, `o`, `o`, so unless `-` is registered it fails
   * on `-`.
   */
  lemma DoubleDashWordIsCluster(args: seq<string>, optstr: string, word: string)
    requires |args| > 1 && args[1] == "--" + word && word != []
    requires '-' !in OptionTable(optstr)
    ensures GetResult(args, optstr) == Err(BadOptionError('-'))
  {
    assert args[1] == ['-'] + [] + ['-'] + word;
    UnknownAborts(OptionTable(optstr), args, 1, [], [], '-', word);
  }
}
