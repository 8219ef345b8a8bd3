/**
 * Decoding of the compact option string given to `Get` (such as
 * "abλc:dßĦ::") into the option table.  A code point on its own is an
 * option without an argument, one followed by `:` takes a required
 * argument, one followed by `::` an optional one; a single leading `:` is
 * dropped and a later definition of a code point replaces an earlier one.
 */
module OptString {
  import opened OptTypes

  /** One definition read from the option string. */
  datatype Definition = Definition(key: char, mode: ArgMode)

  /** How a definition is written in an option string. */
  function Spelling(d: Definition): (s: seq<char>)
    ensures |s| >= 1 && s[0] == d.key
  {
    match d.mode
    case None => [d.key]
    case Required => [d.key, ':']
    case Optional => [d.key, ':', ':']
  }

  /** The option string that spells out the definitions `ds` in order. */
  function Render(ds: seq<Definition>): seq<char>
  {
    if ds == [] then [] else Spelling(ds[0]) + Render(ds[1..])
  }

  /**
   * The definitions an option string (after any leading `:` is dropped)
   * holds, read left to right: a code point followed by `::` is optional,
   * one followed by a single `:` is required, any other is without argument.
   */
  function Definitions(rs: seq<char>): (ds: seq<Definition>)
    ensures |ds| <= |rs|
    ensures ds == [] <==> rs == []
    ensures rs != [] ==> ds[0].key == rs[0]
    decreases |rs|
  {
    if rs == [] then []
    else if |rs| > 2 && rs[1] == ':' && rs[2] == ':' then [Definition(rs[0], Optional)] + Definitions(rs[3..])
    else if |rs| > 1 && rs[1] == ':' then [Definition(rs[0], Required)] + Definitions(rs[2..])
    else [Definition(rs[0], None)] + Definitions(rs[1..])
  }

  /** Reading loses nothing: spelling the definitions of an option string out again gives back the string. */
  lemma {:induction false} RenderDefinitions(rs: seq<char>)
    ensures Render(Definitions(rs)) == rs
    decreases |rs|
  {
    if rs != [] {
      var n := if |rs| > 2 && rs[1] == ':' && rs[2] == ':' then 3 else if |rs| > 1 && rs[1] == ':' then 2 else 1;
      RenderDefinitions(rs[n..]);
      assert rs == rs[..n] + rs[n..];
    }
  }

  /** The table `m` after the definitions `ds` are entered one by one, each overwriting any earlier entry. */
  function TableFrom(m: Table, ds: seq<Definition>): (t: Table)
    ensures m.Keys <= t.Keys
    ensures forall k :: 0 <= k < |ds| ==> ds[k].key in t
    decreases |ds|
  {
    if ds == [] then m else TableFrom(m[ds[0].key := ds[0].mode], ds[1..])
  }

  /** Some definition in `ds` is for the code point `r`. */
  predicate Defines(ds: seq<Definition>, r: char)
  {
    exists k :: 0 <= k < |ds| && ds[k].key == r
  }

  /** The option string with a single leading `:` dropped. */
  function Body(optstr: seq<char>): (b: seq<char>)
    ensures optstr == b || optstr == [':'] + b
    ensures optstr == b <==> optstr == [] || optstr[0] != ':'
  {
    if |optstr| > 0 && optstr[0] == ':' then optstr[1..] else optstr
  }

  /** The option table an option string describes. */
  function OptionTable(optstr: seq<char>): (t: Table)
    ensures forall k :: 0 <= k < |Definitions(Body(optstr))| ==> Definitions(Body(optstr))[k].key in t
    ensures Body(optstr) != [] ==> Body(optstr)[0] in t
  {
    TableFrom(map[], Definitions(Body(optstr)))
  }

  /**
   * Reading the spelling of a definition list gives that list back, as long
   * as no definition after the first is for `:` itself (a `:` key there
   * would be read as part of the previous definition's mode).
   */
  lemma {:induction false} DefinitionsOfRender(ds: seq<Definition>)
    requires forall k :: 1 <= k < |ds| ==> ds[k].key != ':'
    ensures Definitions(Render(ds)) == ds
    decreases |ds|
  {
    if ds != [] {
      var d, tail := ds[0], ds[1..];
      var rest := Render(tail);
      assert Render(ds) == Spelling(d) + rest;
      assert rest != [] ==> rest[0] == tail[0].key != ':' by {
        if rest != [] { assert tail != []; assert tail[0] == ds[1]; }
      }
      DefinitionsOfRender(tail);
      match d.mode
      case None =>
        assert (Spelling(d) + rest)[1..] == rest;
      case Required =>
        assert (Spelling(d) + rest)[2..] == rest;
      case Optional =>
        assert (Spelling(d) + rest)[3..] == rest;
    }
  }

  /** A code point no definition mentions keeps whatever entry (or absence of one) it had. */
  lemma {:induction false} TableFromUndefined(m: Table, ds: seq<Definition>, r: char)
    requires forall k :: 0 <= k < |ds| ==> ds[k].key != r
    ensures r in TableFrom(m, ds) <==> r in m
    ensures r in m ==> TableFrom(m, ds)[r] == m[r]
    decreases |ds|
  {
    if ds != [] {
      TableFromUndefined(m[ds[0].key := ds[0].mode], ds[1..], r);
    }
  }

  /** The last definition of a code point decides its entry: later definitions win. */
  lemma {:induction false} TableFromLastWins(m: Table, ds: seq<Definition>, k: nat)
    requires k < |ds|
    requires forall k' :: k < k' < |ds| ==> ds[k'].key != ds[k].key
    ensures ds[k].key in TableFrom(m, ds)
    ensures TableFrom(m, ds)[ds[k].key] == ds[k].mode
    decreases |ds|
  {
    if k == 0 {
      TableFromUndefined(m[ds[0].key := ds[0].mode], ds[1..], ds[0].key);
    } else {
      TableFromLastWins(m[ds[0].key := ds[0].mode], ds[1..], k - 1);
    }
  }

  /** Entering definitions adds exactly their code points to the table's keys. */
  lemma {:induction false} TableFromKeys(m: Table, ds: seq<Definition>, r: char)
    ensures r in TableFrom(m, ds) <==> r in m || Defines(ds, r)
    decreases |ds|
  {
    if ds != [] {
      TableFromKeys(m[ds[0].key := ds[0].mode], ds[1..], r);
      if Defines(ds[1..], r) {
        var k :| 0 <= k < |ds[1..]| && ds[1..][k].key == r;
        assert ds[k + 1].key == r;
      }
      if Defines(ds, r) {
        var k :| 0 <= k < |ds| && ds[k].key == r;
        if k > 0 { assert ds[1..][k - 1].key == r; }
      }
    }
  }

  /** The keys of the option table are exactly the code points the option string defines. */
  lemma OptionTableKeys(optstr: seq<char>, r: char)
    ensures r in OptionTable(optstr) <==> Defines(Definitions(Body(optstr)), r)
  {
    var ds := Definitions(Body(optstr));
    var empty: Table := map[];
    assert OptionTable(optstr) == TableFrom(empty, ds);
    TableFromKeys(empty, ds, r);
  }

  /** Each code point of the option table has the mode of its last definition in the option string. */
  lemma OptionTableLastWins(optstr: seq<char>, k: nat)
    requires k < |Definitions(Body(optstr))|
    requires forall k' :: k < k' < |Definitions(Body(optstr))| ==>
               Definitions(Body(optstr))[k'].key != Definitions(Body(optstr))[k].key
    ensures Definitions(Body(optstr))[k].key in OptionTable(optstr)
    ensures OptionTable(optstr)[Definitions(Body(optstr))[k].key] == Definitions(Body(optstr))[k].mode
  {
    TableFromLastWins(map[], Definitions(Body(optstr)), k);
  }

  /**
   * An option string written from a list of definitions (no `:` key, no
   * leading `:`) yields a table holding exactly their keys, each with the
   * mode of its last definition.
   */
  lemma OptionTableOfRender(ds: seq<Definition>, k: nat)
    requires forall k' :: 0 <= k' < |ds| ==> ds[k'].key != ':'
    requires k < |ds|
    requires forall k' :: k < k' < |ds| ==> ds[k'].key != ds[k].key
    ensures ds[k].key in OptionTable(Render(ds))
    ensures OptionTable(Render(ds))[ds[k].key] == ds[k].mode
    ensures forall r :: r in OptionTable(Render(ds)) <==> Defines(ds, r)
  {
    assert Body(Render(ds)) == Render(ds) by {
      assert Render(ds)[0] == Spelling(ds[0])[0] == ds[0].key;
    }
    DefinitionsOfRender(ds);
    OptionTableLastWins(Render(ds), k);
    forall r ensures r in OptionTable(Render(ds)) <==> Defines(ds, r) {
      OptionTableKeys(Render(ds), r);
    }
  }

  /**
   * Builds the option table the way `Get` does: drop one leading `:`, then
   * consume the string definition by definition, overwriting earlier entries.
   * An empty option string is excluded: the source indexes its first code
   * point unconditionally.
   */
  method DecodeOptString(optstr: seq<char>) returns (argmap: Table)
    requires |optstr| > 0
    ensures argmap == OptionTable(optstr)
  {
    argmap := map[];
    var rs := optstr;
    if rs[0] == ':' {
      rs := rs[1..];
    }
    while |rs| > 0
      invariant TableFrom(argmap, Definitions(rs)) == OptionTable(optstr)
      decreases |rs|
    {
      var r := rs[0];
      if |rs| > 2 && rs[1] == ':' && rs[2] == ':' {
        argmap := argmap[r := Optional];
        rs := rs[3..];
      } else if |rs| > 1 && rs[1] == ':' {
        argmap := argmap[r := Required];
        rs := rs[2..];
      } else {
        argmap := argmap[r := None];
        rs := rs[1..];
      }
    }
  }
}
