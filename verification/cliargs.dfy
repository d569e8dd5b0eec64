/** `parseArgs`: one left-to-right pass over the command line that fills an
    options record. Boolean flags are switched on by their long or short
    spelling; a value option either takes the next argument, whatever it
    is, and skips it, or takes the text after `=`; anything else is
    skipped; a later occurrence overwrites an earlier one. */
module CliArgs {
  import opened Wrappers
  import opened Text

  /** The boolean switches. */
  datatype Flag = Yes | Help | List | Json | Verbose | DryRun | Stdout | Validate

  /** The options that carry a value. */
  datatype Field = License | Data | Path | Name | Email | Years | Software | Description | Organization

  /** The parsed command line: the value options that are set, with their
      values, and the flags that are on. A value option absent from
      `values` is `undefined`; a flag absent from `flags` is `false`. */
  datatype CliOptions = CliOptions(values: map<Field, string>, flags: set<Flag>)

  /** The record `parseArgs` starts from: every flag off, every value unset. */
  const Defaults := CliOptions(map[], {})

  /** The spellings that switch a flag on; `--json`, `--dry-run`,
      `--stdout` and `--validate` have no short form. */
  function Spellings(f: Flag): set<string> {
    match f
    case Yes => {"--yes", "-y"}
    case Help => {"--help", "-h"}
    case List => {"--list", "-l"}
    case Json => {"--json"}
    case Verbose => {"--verbose", "-v"}
    case DryRun => {"--dry-run"}
    case Stdout => {"--stdout"}
    case Validate => {"--validate"}
  }

  /** The option's name after `--`. */
  function OptionName(f: Field): string {
    match f
    case License => "license"
    case Data => "data"
    case Path => "path"
    case Name => "name"
    case Email => "email"
    case Years => "years"
    case Software => "software"
    case Description => "description"
    case Organization => "organization"
  }

  /** `options[f]` for a value option. */
  function Get(o: CliOptions, f: Field): Option<string> {
    if f in o.values then Some(o.values[f]) else None
  }

  /** `options[f] = v`: assigning `undefined` unsets the option. */
  function Put(o: CliOptions, f: Field, v: Option<string>): (r: CliOptions)
    ensures Get(r, f) == v
    ensures forall g :: g != f ==> Get(r, g) == Get(o, g)
    ensures r.flags == o.flags
  {
    match v
    case Some(x) => o.(values := o.values[f := x])
    case None => o.(values := o.values - {f})
  }

  // ---------------------------------------------------------------------
  // One argument

  /** What one argument asks for. */
  datatype Arg =
    | Switch(flag: Flag)                  // a flag spelling
    | Spaced(field: Field)                // `--x`: the value is the next argument
    | Inline(field: Field, value: string) // `--x=v`
    | Skipped                             // anything else

  /** The flag a spelling names, tested in the order the source tests them. */
  function FlagOf(arg: string): Option<Flag> {
    if arg == "--yes" || arg == "-y" then Some(Yes)
    else if arg == "--help" || arg == "-h" then Some(Help)
    else if arg == "--list" || arg == "-l" then Some(List)
    else if arg == "--json" then Some(Json)
    else if arg == "--verbose" || arg == "-v" then Some(Verbose)
    else if arg == "--dry-run" then Some(DryRun)
    else if arg == "--stdout" then Some(Stdout)
    else if arg == "--validate" then Some(Validate)
    else None
  }

  /** The value options, in the order the source tests them. */
  const FieldOrder: seq<Field> :=
    [License, Data, Path, Name, Email, Years, Software, Description, Organization]

  /** `arg === "--x"`, then `arg.startsWith("--x=")`, for each option in
      `fields` in turn. */
  function FieldArg(arg: string, fields: seq<Field>): Arg {
    if |fields| == 0 then Skipped
    else
      var spaced := "--" + OptionName(fields[0]);
      if arg == spaced then Spaced(fields[0])
      else if StartsWith(arg, spaced + "=") then Inline(fields[0], arg[|spaced| + 1..])
      else FieldArg(arg, fields[1..])
  }

  /** The branch of the loop body an argument takes. */
  function Classify(arg: string): Arg {
    match FlagOf(arg)
    case Some(f) => Switch(f)
    case None => FieldArg(arg, FieldOrder)
  }

  // ---------------------------------------------------------------------
  // The loop

  /** How far the index moves past an argument: a spaced option also
      consumes the argument after it. */
  function Width(a: Arg): nat {
    if a.Spaced? then 2 else 1
  }

  /** The record after the argument at `i` has been read. */
  function Step(argv: seq<string>, i: nat, o: CliOptions): CliOptions
    requires i < |argv|
  {
    match Classify(argv[i])
    case Switch(f) => o.(flags := o.flags + {f})
    case Spaced(f) => Put(o, f, if i + 1 < |argv| then Some(argv[i + 1]) else None)
    case Inline(f, v) => Put(o, f, Some(v))
    case Skipped => o
  }

  /** The loop from index `i` on. */
  function ParseFrom(argv: seq<string>, i: nat, o: CliOptions): CliOptions
    decreases |argv| - i
  {
    if i >= |argv| then o
    else ParseFrom(argv, i + Width(Classify(argv[i])), Step(argv, i, o))
  }

  /** `parseArgs(argv)`. Nothing is invented: every flag it sets is spelled
      by some argument, and every option it holds is assigned by one. */
  function ParseArgs(argv: seq<string>): (r: CliOptions)
    ensures forall f :: f in r.flags ==> exists v :: 0 <= v < |argv| && argv[v] in Spellings(f)
    ensures forall f :: f in r.values ==> exists v :: 0 <= v < |argv| && AssignsAt(argv, v, f)
  {
    ParseFromSound(argv);
    ParseFrom(argv, 0, Defaults)
  }

  /** The indices the loop body runs at, from `i` on: the arguments read as
      arguments rather than consumed as values. */
  function Visited(argv: seq<string>, i: nat): (vs: seq<nat>)
    ensures forall k :: 0 <= k < |vs| ==> i <= vs[k] < |argv|
    decreases |argv| - i
  {
    if i >= |argv| then [] else [i] + Visited(argv, i + Width(Classify(argv[i])))
  }

  // ---------------------------------------------------------------------
  // Spellings do not collide

  /** A string without `=` does not start with anything followed by `=`. */
  lemma NoEqualsNoPrefix(a: string, p: string)
    requires forall i :: 0 <= i < |a| ==> a[i] != '='
    ensures !StartsWith(a, p + "=")
  {
    if StartsWith(a, p + "=") {
      StartsWithAt(a, p + "=", |p|);
    }
  }

  /** A string starting with `q` agrees with it on `q`'s positions. */
  lemma StartsWithAt(a: string, q: string, k: int)
    requires StartsWith(a, q) && 0 <= k < |q|
    ensures a[k] == q[k]
  {
    assert a[..|q|][k] == a[k];
  }

  /** The spaced form of an option contains no `=`. */
  lemma SpacedHasNoEquals(f: Field)
    ensures forall i :: 0 <= i < |"--" + OptionName(f)| ==> ("--" + OptionName(f))[i] != '='
  {
  }

  /** Different options have different names. */
  lemma NamesDistinct(f: Field, g: Field)
    requires f != g
    ensures "--" + OptionName(f) != "--" + OptionName(g)
  {
    assert ("--" + OptionName(f))[2..] == OptionName(f);
    assert ("--" + OptionName(g))[2..] == OptionName(g);
  }

  /** One argument cannot start with two different `=`-free names each
      followed by `=`. */
  lemma InlinePrefixUnique(arg: string, x: string, y: string)
    requires forall i :: 0 <= i < |x| ==> x[i] != '='
    requires forall i :: 0 <= i < |y| ==> y[i] != '='
    requires StartsWith(arg, x + "=") && StartsWith(arg, y + "=")
    ensures x == y
  {
    if |x| < |y| {
      StartsWithAt(arg, x + "=", |x|);
      StartsWithAt(arg, y + "=", |x|);
    } else if |y| < |x| {
      StartsWithAt(arg, x + "=", |y|);
      StartsWithAt(arg, y + "=", |y|);
    } else {
      assert x == (x + "=")[..|x|] == arg[..|x|] == (y + "=")[..|y|] == y;
    }
  }

  /** `FlagOf` recognises exactly the spellings of each flag. */
  lemma FlagOfSpellings(arg: string, f: Flag)
    ensures FlagOf(arg) == Some(f) <==> arg in Spellings(f)
  {
  }

  /** No flag spelling contains `=`. */
  lemma SpellingHasNoEquals(arg: string, f: Flag)
    requires arg in Spellings(f)
    ensures forall i :: 0 <= i < |arg| ==> arg[i] != '='
  {
  }

  /** The spaced form of an option is no flag spelling. */
  lemma OptionNotFlag(f: Field)
    ensures FlagOf("--" + OptionName(f)).None?
  {
    var arg := "--" + OptionName(f);
    assert arg[2] == OptionName(f)[0];
    match f
    case License =>
    case Data =>
    case Path =>
    case Name =>
    case Email =>
    case Years =>
    case Software =>
    case Description =>
    case Organization =>
  }

  // ---------------------------------------------------------------------
  // What one argument does

  /** Every value option is tested, once. */
  lemma FieldOrderComplete(f: Field)
    ensures f in FieldOrder
    ensures forall i, j :: 0 <= i < j < |FieldOrder| ==> FieldOrder[i] != FieldOrder[j]
  {
  }

  /** The option tests answer only with the options tested. */
  lemma {:induction false} FieldArgIn(arg: string, fields: seq<Field>)
    ensures !FieldArg(arg, fields).Switch?
    ensures FieldArg(arg, fields).Spaced? || FieldArg(arg, fields).Inline? ==>
              FieldArg(arg, fields).field in fields
    decreases |fields|
  {
    if |fields| > 0 {
      FieldArgIn(arg, fields[1..]);
    }
  }

  /** Among distinct options, `--x` is read as the spaced form of `x`, and
      nothing else is. */
  lemma {:induction false} FieldArgSpaced(arg: string, fields: seq<Field>, f: Field)
    requires f in fields
    requires forall i, j :: 0 <= i < j < |fields| ==> fields[i] != fields[j]
    ensures FieldArg(arg, fields) == Spaced(f) <==> arg == "--" + OptionName(f)
    decreases |fields|
  {
    var g, spaced := fields[0], "--" + OptionName(fields[0]);
    if arg == spaced {
      if g != f {
        NamesDistinct(f, g);
      }
    } else if StartsWith(arg, spaced + "=") {
      if arg == "--" + OptionName(f) {
        SpacedHasNoEquals(f);
        NoEqualsNoPrefix(arg, spaced);
      }
    } else if g == f {
      FieldArgIn(arg, fields[1..]);
      assert f !in fields[1..] by {
        forall k | 0 <= k < |fields[1..]| ensures fields[1..][k] != f {
          assert fields[1..][k] == fields[k + 1];
        }
      }
    } else {
      FieldArgSpaced(arg, fields[1..], f);
    }
  }

  /** Among distinct options, `--x=v` is read as the inline form of `x`
      with the value `v`, and nothing else is. */
  lemma {:induction false} FieldArgInline(arg: string, fields: seq<Field>, f: Field, v: string)
    requires f in fields
    requires forall i, j :: 0 <= i < j < |fields| ==> fields[i] != fields[j]
    ensures FieldArg(arg, fields) == Inline(f, v) <==>
              StartsWith(arg, "--" + OptionName(f) + "=") && v == arg[|OptionName(f)| + 3..]
    decreases |fields|
  {
    var g, spaced := fields[0], "--" + OptionName(fields[0]);
    if arg == spaced {
      SpacedHasNoEquals(g);
      NoEqualsNoPrefix(arg, "--" + OptionName(f));
    } else if StartsWith(arg, spaced + "=") {
      if g != f && StartsWith(arg, "--" + OptionName(f) + "=") {
        NamesDistinct(f, g);
        SpacedHasNoEquals(f);
        SpacedHasNoEquals(g);
        InlinePrefixUnique(arg, "--" + OptionName(f), spaced);
      }
    } else if g == f {
      FieldArgIn(arg, fields[1..]);
      assert f !in fields[1..] by {
        forall k | 0 <= k < |fields[1..]| ensures fields[1..][k] != f {
          assert fields[1..][k] == fields[k + 1];
        }
      }
    } else {
      FieldArgInline(arg, fields[1..], f, v);
    }
  }

  /** An argument switches a flag on exactly when it is one of its spellings. */
  lemma ClassifySwitch(arg: string, f: Flag)
    ensures Classify(arg) == Switch(f) <==> arg in Spellings(f)
  {
    FlagOfSpellings(arg, f);
    FieldArgIn(arg, FieldOrder);
  }

  /** `--x` makes the next argument the value of `x`; nothing else does. */
  lemma ClassifySpaced(arg: string, f: Field)
    ensures Classify(arg) == Spaced(f) <==> arg == "--" + OptionName(f)
  {
    OptionNotFlag(f);
    FieldOrderComplete(f);
    FieldArgSpaced(arg, FieldOrder, f);
  }

  /** `--x=v` gives `x` the value `v`; nothing else does. */
  lemma ClassifyInline(arg: string, f: Field, v: string)
    ensures Classify(arg) == Inline(f, v) <==>
              StartsWith(arg, "--" + OptionName(f) + "=") && v == arg[|OptionName(f)| + 3..]
  {
    if FlagOf(arg).Some? {
      FlagOfSpellings(arg, FlagOf(arg).value);
      SpellingHasNoEquals(arg, FlagOf(arg).value);
      NoEqualsNoPrefix(arg, "--" + OptionName(f));
    }
    FieldOrderComplete(f);
    FieldArgInline(arg, FieldOrder, f, v);
  }

  // ---------------------------------------------------------------------
  // The whole pass

  /** The argument at `v` switches `f` on. */
  predicate SwitchesAt(argv: seq<string>, v: nat, f: Flag) {
    v < |argv| && Classify(argv[v]) == Switch(f)
  }

  /** The argument at `v` assigns the value option `f`. */
  predicate AssignsAt(argv: seq<string>, v: nat, f: Field) {
    v < |argv| && (Classify(argv[v]).Spaced? || Classify(argv[v]).Inline?) && Classify(argv[v]).field == f
  }

  /** The value the argument at `v` assigns: the text after `=`, or the
      next argument, `undefined` past the end. */
  function AssignedAt(argv: seq<string>, v: nat): Option<string>
    requires v < |argv|
  {
    match Classify(argv[v])
    case Inline(_, x) => Some(x)
    case _ => if v + 1 < |argv| then Some(argv[v + 1]) else None
  }

  /** What reading one argument changes: the flag it switches on, or the
      value option it assigns, and nothing else. */
  lemma StepEffect(argv: seq<string>, i: nat, o: CliOptions)
    requires i < |argv|
    ensures forall f :: f in Step(argv, i, o).flags <==> f in o.flags || SwitchesAt(argv, i, f)
    ensures forall f :: Get(Step(argv, i, o), f) ==
                          if AssignsAt(argv, i, f) then AssignedAt(argv, i) else Get(o, f)
  {
  }

  /** A flag is on after the pass exactly when it was on before or one of
      its spellings is read as an argument. */
  lemma {:induction false} FlagsFrom(argv: seq<string>, i: nat, o: CliOptions, f: Flag)
    ensures f in ParseFrom(argv, i, o).flags <==>
              f in o.flags || exists v :: v in Visited(argv, i) && SwitchesAt(argv, v, f)
    decreases |argv| - i
  {
    if i < |argv| {
      var next := i + Width(Classify(argv[i]));
      FlagsFrom(argv, next, Step(argv, i, o), f);
      assert Visited(argv, i) == [i] + Visited(argv, next);
      StepEffect(argv, i, o);
    }
  }

  /** The pass leaves a value option alone when no argument it reads
      assigns it. */
  lemma {:induction false} UntouchedFrom(argv: seq<string>, i: nat, o: CliOptions, f: Field)
    requires forall v :: v in Visited(argv, i) ==> !AssignsAt(argv, v, f)
    ensures Get(ParseFrom(argv, i, o), f) == Get(o, f)
    decreases |argv| - i
  {
    if i < |argv| {
      var next := i + Width(Classify(argv[i]));
      assert Visited(argv, i) == [i] + Visited(argv, next);
      assert !AssignsAt(argv, i, f);
      StepEffect(argv, i, o);
      UntouchedFrom(argv, next, Step(argv, i, o), f);
    }
  }

  /** The last argument read that assigns a value option decides its value. */
  lemma {:induction false} LastFrom(argv: seq<string>, i: nat, o: CliOptions, f: Field, v: nat)
    requires v in Visited(argv, i) && AssignsAt(argv, v, f)
    requires forall w :: w in Visited(argv, i) && w > v ==> !AssignsAt(argv, w, f)
    ensures Get(ParseFrom(argv, i, o), f) == AssignedAt(argv, v)
    decreases |argv| - i
  {
    var next := i + Width(Classify(argv[i]));
    assert Visited(argv, i) == [i] + Visited(argv, next);
    StepEffect(argv, i, o);
    if v == i {
      UntouchedFrom(argv, next, Step(argv, i, o), f);
    } else {
      LastFrom(argv, next, Step(argv, i, o), f, v);
    }
  }

  /** The loop from the defaults sets only flags and options that some
      argument names. */
  lemma ParseFromSound(argv: seq<string>)
    ensures forall f :: f in ParseFrom(argv, 0, Defaults).flags ==>
              exists v :: 0 <= v < |argv| && argv[v] in Spellings(f)
    ensures forall f :: f in ParseFrom(argv, 0, Defaults).values ==>
              exists v :: 0 <= v < |argv| && AssignsAt(argv, v, f)
  {
    var r := ParseFrom(argv, 0, Defaults);
    forall f | f in r.flags
      ensures exists v :: 0 <= v < |argv| && argv[v] in Spellings(f)
    {
      FlagsFrom(argv, 0, Defaults, f);
      var v :| v in Visited(argv, 0) && SwitchesAt(argv, v, f);
      ClassifySwitch(argv[v], f);
    }
    forall f | f in r.values
      ensures exists v :: 0 <= v < |argv| && AssignsAt(argv, v, f)
    {
      if forall v :: v in Visited(argv, 0) ==> !AssignsAt(argv, v, f) {
        UntouchedFrom(argv, 0, Defaults, f);
        assert false;
      }
    }
  }

  /** `parseArgs` switches a flag on exactly when one of its spellings is
      read as an argument (not consumed as the value of an option). */
  lemma ParseFlagIff(argv: seq<string>, f: Flag)
    ensures f in ParseArgs(argv).flags <==>
              exists v :: v in Visited(argv, 0) && argv[v] in Spellings(f)
  {
    FlagsFrom(argv, 0, Defaults, f);
    forall v | v in Visited(argv, 0)
      ensures SwitchesAt(argv, v, f) <==> argv[v] in Spellings(f)
    {
      ClassifySwitch(argv[v], f);
    }
  }

  /** A later occurrence of a value option overwrites an earlier one: the
      last one read decides, including `undefined` from a spaced option at
      the very end. */
  lemma ParseLastWins(argv: seq<string>, f: Field, v: nat)
    requires v in Visited(argv, 0) && AssignsAt(argv, v, f)
    requires forall w :: w in Visited(argv, 0) && w > v ==> !AssignsAt(argv, w, f)
    ensures Get(ParseArgs(argv), f) == AssignedAt(argv, v)
  {
    LastFrom(argv, 0, Defaults, f, v);
  }

  /** A value option that no argument assigns stays unset. */
  lemma ParseUnset(argv: seq<string>, f: Field)
    requires forall v :: v in Visited(argv, 0) ==> !AssignsAt(argv, v, f)
    ensures Get(ParseArgs(argv), f) == None
  {
    UntouchedFrom(argv, 0, Defaults, f);
  }

  /** The loop reads the first argument, and after reading the one at `v`
      it skips exactly the value a spaced option consumes. */
  lemma {:induction false} VisitedSteps(argv: seq<string>, i: nat, v: nat)
    requires v in Visited(argv, i)
    ensures var next := v + Width(Classify(argv[v]));
            && (next < |argv| ==> next in Visited(argv, i))
            && (forall w :: v < w < next ==> w !in Visited(argv, i))
    decreases |argv| - i
  {
    var next := i + Width(Classify(argv[i]));
    assert Visited(argv, i) == [i] + Visited(argv, next);
    if v == i {
      if next < |argv| {
        assert Visited(argv, next)[0] == next;
      }
    } else {
      VisitedSteps(argv, next, v);
    }
  }

  // ---------------------------------------------------------------------
  // Examples

  /** A spaced option takes the next argument even when it looks like a
      flag, and that argument is not read as a flag. */
  lemma SpacedValueIsNotReadAsFlag()
    ensures ParseArgs(["--name", "--yes"]) == CliOptions(map[Name := "--yes"], {})
  {
    var argv := ["--name", "--yes"];
    ClassifySpaced("--name", Name);
    assert Classify(argv[0]) == Spaced(Name);
    assert ParseArgs(argv) == ParseFrom(argv, 2, Put(Defaults, Name, Some("--yes")));
  }

  /** A spaced option at the very end assigns `undefined`, undoing an
      earlier inline value. */
  lemma TrailingOptionUnsets()
    ensures ParseArgs(["--license=MIT", "--license"]) == Defaults
  {
    var argv := ["--license=MIT", "--license"];
    ClassifyInline("--license=MIT", License, "MIT");
    assert StartsWith("--license=MIT", "--license=");
    assert Classify(argv[0]) == Inline(License, "MIT");
    ClassifySpaced("--license", License);
    assert Classify(argv[1]) == Spaced(License);
    var o := Put(Defaults, License, Some("MIT"));
    assert ParseArgs(argv) == ParseFrom(argv, 1, o);
    assert ParseFrom(argv, 1, o) == ParseFrom(argv, 3, Put(o, License, None));
    assert Put(o, License, None).values == map[];
  }
}
