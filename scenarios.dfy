/**
 * The scenarios of the source's test suite, all against the option string
 * "abλc:dßĦ::".  SampleOptionTable gives the table that string describes,
 * and GetSample reduces `GetResult(a, Sample)` to a scan against that
 * table, so each scenario below is stated as the scan of its arguments.
 */
module Scenarios {
  import opened OptTypes
  import opened OptString
  import opened Scan
  import opened ScanProperties

  const Sample: string := "abλc:dßĦ::"

  /** The definitions the sample option string spells out. */
  const SampleDefinitions: seq<Definition> :=
    [Definition('a', None), Definition('b', None), Definition('λ', None), Definition('c', Required),
     Definition('d', None), Definition('ß', None), Definition('Ħ', Optional)]

  /** The table the sample option string describes. */
  const SampleTable: Table := map['a' := None, 'b' := None, 'λ' := None, 'c' := Required,
                                  'd' := None, 'ß' := None, 'Ħ' := Optional]

  /** The sample option string spells out its seven definitions. */
  lemma SampleSpelling()
    ensures Render(SampleDefinitions) == Sample
  {
  }

  /** The sample option string is read as its seven definitions. */
  lemma SampleReadsAsDefinitions()
    ensures Definitions(Body(Sample)) == SampleDefinitions
  {
    assert Body(Sample) == Sample;
    SampleSpelling();
    DefinitionsOfRender(SampleDefinitions);
  }

  /** The sample option string registers a, b, λ, d and ß without argument, c with a required and Ħ with an optional one. */
  lemma SampleOptionTable()
    ensures OptionTable(Sample) == SampleTable
  {
    SampleReadsAsDefinitions();
    var empty: Table := map[];
    assert TableFrom(empty, SampleDefinitions) == SampleTable;
  }

  /** `Get` with the sample option string scans against the sample table. */
  lemma GetSample(a: seq<string>)
    ensures GetResult(a, Sample) == ScanFrom(SampleTable, a, 1, [])
  {
    SampleOptionTable();
  }

  /** With no arguments at all the index is 0. */
  lemma NoArg(a: seq<string>)
    requires a == []
    ensures ScanFrom(SampleTable, a, 1, []) == Ok([], 0)
  {
  }

  /** The program name alone is not scanned; the index is 1. */
  lemma NoFlag(a: seq<string>)
    requires a == ["foo"]
    ensures ScanFrom(SampleTable, a, 1, []) == Ok([], 1)
  {
  }

  /** A required option at the end of the arguments fails for that option. */
  lemma CNoArg(a: seq<string>)
    requires a == ["foo", "-c"]
    ensures ScanFrom(SampleTable, a, 1, []) == Err(NoArgumentError('c'))
  {
  }

  /** A required option last in its token takes the next argument. */
  lemma CWithArg(a: seq<string>)
    requires a == ["foo", "-c", "bar"]
    ensures ScanFrom(SampleTable, a, 1, []) == Ok([Flag('c', "bar")], 3)
  {
  }

  /** A required option followed by more code points takes them as its value. */
  lemma CWithArgNoSpace(a: seq<string>)
    requires a == ["foo", "-cbar"]
    ensures ScanFrom(SampleTable, a, 1, []) == Ok([Flag('c', "bar")], 2)
  {
  }

  /** An option without argument gives a flag with an empty value. */
  lemma ANoArg(a: seq<string>)
    requires a == ["foo", "-a"]
    ensures ScanFrom(SampleTable, a, 1, []) == Ok([Flag('a', "")], 2)
  {
    assert a[1] == ['-'] + "a";
    assert AllNone(SampleTable, "a");
    BundledNoneFlags(SampleTable, a, 1, [], "a");
    assert NoneFlags("a") == [Flag('a', "")];
    assert ScanFrom(SampleTable, a, 2, [Flag('a', "")]) == Ok([Flag('a', "")], 2);
  }

  /** An option without argument does not take the next argument, which is then an operand. */
  lemma AWithArg(a: seq<string>)
    requires a == ["foo", "-a", "bar"]
    ensures ScanFrom(SampleTable, a, 1, []) == Ok([Flag('a', "")], 2)
  {
    assert a[1] == ['-'] + "a";
    assert AllNone(SampleTable, "a");
    BundledNoneFlags(SampleTable, a, 1, [], "a");
    assert NoneFlags("a") == [Flag('a', "")];
    assert ScanFrom(SampleTable, a, 2, [Flag('a', "")]) == Ok([Flag('a', "")], 2);
  }

  /** Flags from separate tokens are returned in order. */
  lemma AAndCWithArg(a: seq<string>)
    requires a == ["foo", "-a", "-c", "bar"]
    ensures ScanFrom(SampleTable, a, 1, []) == Ok([Flag('a', ""), Flag('c', "bar")], 4)
  {
    assert a[1] == ['-'] + "a";
    assert AllNone(SampleTable, "a");
    BundledNoneFlags(SampleTable, a, 1, [], "a");
    assert NoneFlags("a") == [Flag('a', "")];
    assert a[2] == ['-'] + [] + ['c'];
    RequiredTakesNext(SampleTable, a, 2, [Flag('a', "")], [], 'c');
    assert ScanFrom(SampleTable, a, 4, [Flag('a', ""), Flag('c', "bar")]) == Ok([Flag('a', ""), Flag('c', "bar")], 4);
  }

  /** A required option last in a bundle takes the next argument. */
  lemma ACWithArg(a: seq<string>)
    requires a == ["foo", "-ac", "bar"]
    ensures ScanFrom(SampleTable, a, 1, []) == Ok([Flag('a', ""), Flag('c', "bar")], 3)
  {
    assert a[1] == ['-'] + "a" + ['c'];
    assert AllNone(SampleTable, "a");
    RequiredTakesNext(SampleTable, a, 1, [], "a", 'c');
    assert NoneFlags("a") == [Flag('a', "")];
    assert ScanFrom(SampleTable, a, 3, [Flag('a', ""), Flag('c', "bar")]) == Ok([Flag('a', ""), Flag('c', "bar")], 3);
  }

  /** A required option not last in its token takes the rest of it, even a registered code point. */
  lemma CAWithArg(a: seq<string>)
    requires a == ["foo", "-ca", "bar"]
    ensures ScanFrom(SampleTable, a, 1, []) == Ok([Flag('c', "a")], 2)
  {
  }

  /** `--` ends the scan; the index is just past it. */
  lemma BAfterDashDash(a: seq<string>)
    requires a == ["foo", "--", "-b"]
    ensures ScanFrom(SampleTable, a, 1, []) == Ok([], 2)
  {
  }

  /** Nothing after `--` is parsed. */
  lemma CWithArgAfterDashDash(a: seq<string>)
    requires a == ["foo", "--", "-c", "bar", "baz"]
    ensures ScanFrom(SampleTable, a, 1, []) == Ok([], 2)
  {
  }

  /** The scan stops at the first operand, before a later `--`. */
  lemma CWithArgThenDAfterDashDash(a: seq<string>)
    requires a == ["foo", "-c", "bar", "baz", "--", "-d"]
    ensures ScanFrom(SampleTable, a, 1, []) == Ok([Flag('c', "bar")], 3)
  {
  }

  /** The scan stops at the first operand, before a later empty token. */
  lemma CWithArgThenDAfterEmpty(a: seq<string>)
    requires a == ["foo", "-c", "bar", "baz", "", "-d"]
    ensures ScanFrom(SampleTable, a, 1, []) == Ok([Flag('c', "bar")], 3)
  {
  }

  /** A bundle of the same option gives one flag per occurrence. */
  lemma BChainedThrice(a: seq<string>)
    requires a == ["foo", "-bbb"]
    ensures ScanFrom(SampleTable, a, 1, []) == Ok([Flag('b', ""), Flag('b', ""), Flag('b', "")], 2)
  {
    assert a[1] == ['-'] + "bbb";
    assert AllNone(SampleTable, "bbb");
    BundledNoneFlags(SampleTable, a, 1, [], "bbb");
    assert NoneFlags("bbb") == [Flag('b', ""), Flag('b', ""), Flag('b', "")];
    assert ScanFrom(SampleTable, a, 2, [Flag('b', ""), Flag('b', ""), Flag('b', "")]) == Ok([Flag('b', ""), Flag('b', ""), Flag('b', "")], 2);
  }

  /** Code points beyond ASCII bundle like any other. */
  lemma SharpSChainedTwice(a: seq<string>)
    requires a == ["foo", "-ßß"]
    ensures ScanFrom(SampleTable, a, 1, []) == Ok([Flag('ß', ""), Flag('ß', "")], 2)
  {
    assert a[1] == ['-'] + "ßß";
    assert AllNone(SampleTable, "ßß");
    BundledNoneFlags(SampleTable, a, 1, [], "ßß");
    assert NoneFlags("ßß") == [Flag('ß', ""), Flag('ß', "")];
    assert ScanFrom(SampleTable, a, 2, [Flag('ß', ""), Flag('ß', "")]) == Ok([Flag('ß', ""), Flag('ß', "")], 2);
  }

  /** The argument of a required option is taken verbatim even when it looks like an option. */
  lemma LambdaAsArgToC(a: seq<string>)
    requires a == ["foo", "-c", "-λ"]
    ensures ScanFrom(SampleTable, a, 1, []) == Ok([Flag('c', "-λ")], 3)
  {
  }

  /** An unregistered code point fails the parse. */
  lemma InvalidFlag(a: seq<string>)
    requires a == ["foo", "-X"]
    ensures ScanFrom(SampleTable, a, 1, []) == Err(BadOptionError('X'))
  {
  }

  /** An unregistered code point fails the parse whatever follows. */
  lemma InvalidFlagWithArg(a: seq<string>)
    requires a == ["foo", "-X", "bar"]
    ensures ScanFrom(SampleTable, a, 1, []) == Err(BadOptionError('X'))
  {
  }

  /** The first operand ends the scan; options after it are not parsed. */
  lemma AAfterArg(a: seq<string>)
    requires a == ["foo", "bar", "-a"]
    ensures ScanFrom(SampleTable, a, 1, []) == Ok([], 1)
  {
  }

  /** A lone `-` is an operand. */
  lemma XAfterDash(a: seq<string>)
    requires a == ["foo", "-", "-x"]
    ensures ScanFrom(SampleTable, a, 1, []) == Ok([], 1)
  {
  }

  /** An optional option last in its token gets an empty value and leaves the next argument alone. */
  lemma HWithSpaceAndArg(a: seq<string>)
    requires a == ["foo", "-Ħ", "bar"]
    ensures ScanFrom(SampleTable, a, 1, []) == Ok([Flag('Ħ', "")], 2)
  {
    assert a[1] == ['-'] + [] + ['Ħ'];
    OptionalLastIsEmpty(SampleTable, a, 1, [], [], 'Ħ');
    assert ScanFrom(SampleTable, a, 2, [Flag('Ħ', "")]) == Ok([Flag('Ħ', "")], 2);
  }

  /** An optional option followed by more code points takes them as its value. */
  lemma HWithArg(a: seq<string>)
    requires a == ["foo", "-Ħbar"]
    ensures ScanFrom(SampleTable, a, 1, []) == Ok([Flag('Ħ', "bar")], 2)
  {
  }

  /** Flags without argument, then an optional one taking the rest of the token. */
  lemma LambdaHWithArg(a: seq<string>)
    requires a == ["foo", "-λĦbar"]
    ensures ScanFrom(SampleTable, a, 1, []) == Ok([Flag('λ', ""), Flag('Ħ', "bar")], 2)
  {
    assert a[1] == ['-'] + "λ" + ['Ħ'] + "bar";
    assert AllNone(SampleTable, "λ");
    AttachedValue(SampleTable, a, 1, [], "λ", 'Ħ', "bar");
    assert NoneFlags("λ") == [Flag('λ', "")];
    assert ScanFrom(SampleTable, a, 2, [Flag('λ', ""), Flag('Ħ', "bar")]) == Ok([Flag('λ', ""), Flag('Ħ', "bar")], 2);
  }
}
