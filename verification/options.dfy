/** Recognition of a command-line switch by name (`OptionNameIs`). */
module Options {
  import opened Ascii

  /** The argument with one leading `-` or `/` switch character removed. */
  function SkipSwitch(arg: string): (a: string)
    ensures |a| <= |arg| <= |a| + 1
  {
    if |arg| > 0 && (arg[0] == '-' || arg[0] == '/') then arg[1..] else arg
  }

  /** The comparison loop of `OptionNameIs`: walk both strings while both
      have characters, failing on the first case-insensitive mismatch;
      then the name must be used up and the argument must not go on with a
      letter, digit or underscore. */
  function MatchName(a: string, n: string): bool
    decreases |n|
  {
    if |a| > 0 && |n| > 0 then
      Lower(n[0]) == Lower(a[0]) && MatchName(a[1..], n[1..])
    else
      |n| == 0 && (|a| == 0 || !IsWordChar(a[0]))
  }

  /** `name` is a case-insensitive prefix of `a` that ends at a word
      boundary of `a`. */
  predicate NameAtStart(a: string, n: string)
  {
    && |n| <= |a|
    && EqualsIgnoreCase(a[..|n|], n)
    && (|a| == |n| || !IsWordChar(a[|n|]))
  }

  /** `OptionNameIs(szArg, szName)`. */
  function OptionNameIs(arg: string, name: string): (r: bool)
  {
    if |arg| == 0 || |name| == 0 then false
    else MatchName(SkipSwitch(arg), name)
  }

  lemma {:induction false} MatchNameIsNameAtStart(a: string, n: string)
    ensures MatchName(a, n) <==> NameAtStart(a, n)
    decreases |n|
  {
    if |a| > 0 && |n| > 0 {
      MatchNameIsNameAtStart(a[1..], n[1..]);
      if NameAtStart(a, n) {
        assert NameAtStart(a[1..], n[1..]) by {
          forall i | 0 <= i < |n| - 1
            ensures Lower(a[1..][..|n| - 1][i]) == Lower(n[1..][i])
          {
            assert a[..|n|][i + 1] == a[1..][..|n| - 1][i];
          }
        }
      }
      if MatchName(a, n) {
        assert NameAtStart(a, n) by {
          forall i | 0 <= i < |n|
            ensures Lower(a[..|n|][i]) == Lower(n[i])
          {
            if i > 0 {
              assert a[..|n|][i] == a[1..][..|n| - 1][i - 1];
            }
          }
        }
      }
    } else if |n| == 0 {
      assert a[..0] == [];
    }
  }

  /** The whole contract of `OptionNameIs`: both strings non-empty, and
      after at most one leading switch character the argument starts with
      the name (up to case) followed by the end or a non-word character. */
  lemma OptionNameIsSpec(arg: string, name: string)
    ensures OptionNameIs(arg, name)
      <==> |arg| > 0 && |name| > 0 && NameAtStart(SkipSwitch(arg), name)
  {
    if |arg| > 0 && |name| > 0 {
      MatchNameIsNameAtStart(SkipSwitch(arg), name);
    }
  }

  /** `/INFORMAT=UTF8` names the `INFORMAT` switch. */
  lemma LongSwitchExample(arg: string)
    requires arg == "/INFORMAT=UTF8"
    ensures OptionNameIs(arg, "INFORMAT")
  {
    OptionNameIsSpec(arg, "INFORMAT");
    var a := SkipSwitch(arg);
    assert a[..8] == "INFORMAT" && a[8] == '=';
  }

  /** `/INFORMAT=UTF8` does not name the `I` switch, though it starts
      with `I`. */
  lemma PrefixExample(arg: string)
    requires arg == "/INFORMAT=UTF8"
    ensures !OptionNameIs(arg, "I")
  {
    OptionNameIsSpec(arg, "I");
    var a := SkipSwitch(arg);
    assert a[1] == 'N';
  }

  /** `-i:ansi` names the `I` switch, whatever the case. */
  lemma ShortSwitchExample(arg: string)
    requires arg == "-i:ansi"
    ensures OptionNameIs(arg, "I")
  {
    OptionNameIsSpec(arg, "I");
    var a := SkipSwitch(arg);
    assert a[..1] == "i" && a[1] == ':';
  }

  /** `-verbosely` does not name the `VERBOSE` switch: the name must end
      at a word boundary. */
  lemma WordBoundaryExample(arg: string)
    requires arg == "-verbosely"
    ensures !OptionNameIs(arg, "VERBOSE")
  {
    OptionNameIsSpec(arg, "VERBOSE");
    var a := SkipSwitch(arg);
    assert a[7] == 'l';
  }
}
