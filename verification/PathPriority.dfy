/**
 What the priority of tools/sd_layout.py means on paths: the narrower of two matchers
 of different kinds comes first, and within a kind the order is the text's.
 */
module PathPriority {
  import opened Matchers
  import opened Ordering
  import opened Projections
  import opened CompiledPolicy

  // ---------------------------------------------------------------- narrower matchers

  ghost predicate Narrower(a: Matcher, b: Matcher) {
    forall path: string :: Matches(a, path) ==> Matches(b, path)
  }

  /** A matcher as the layout's patterns make it: a prefix is not empty. */
  predicate Made(m: Matcher) {
    WellFormed(m) && (m.kind == BasenamePrefixSuffix ==> OrEmpty(m.value) != "")
  }

  /** The pattern * accepts every path below its root. */
  predicate BareStar(m: Matcher) {
    m.kind == BasenameSuffix && OrEmpty(m.suffix) == ""
  }

  /** A directory in which m accepts names. */
  function DirOf(m: Matcher): string { if m.root.Some? then m.root.value else "q" }

  /** A name that m accepts, with x where its constraint leaves room. */
  function NameOf(m: Matcher, x: string): string {
    match m.kind
    case BasenameExact => OrEmpty(m.value)
    case TopRoot => x
    case _ => OrEmpty(m.value) + x + OrEmpty(m.suffix)
  }

  /** m accepts the name in its directory, and in any directory below it. */
  lemma Accepts(m: Matcher, x: string)
    requires WellFormed(m) && m.kind != ExactPath && '/' !in x
    ensures '/' !in NameOf(m, x) && '/' !in DirOf(m)
    ensures Matches(m, DirOf(m) + "/" + NameOf(m, x)) && Matches(m, DirOf(m) + "/q/" + NameOf(m, x))
  {
    var dir, name := DirOf(m), NameOf(m, x);
    var v, s := OrEmpty(m.value), OrEmpty(m.suffix);
    if m.kind == BasenamePrefixSuffix || m.kind == BasenameSuffix {
      assert name[..|v|] == v && name[|name| - |s|..] == s;
    }
    TopOfJoined(dir, name);
    BaseOfJoined(dir, name);
    assert dir + "/q/" + name == dir + "/" + ("q/" + name);
    assert dir + "/q/" + name == (dir + "/q") + "/" + name;
    TopOfJoined(dir, "q/" + name);
    BaseOfJoined(dir + "/q", name);
  }

  /** What a wider matcher must accept then. */
  lemma WiderAccepts(a: Matcher, b: Matcher, x: string)
    requires WellFormed(a) && WellFormed(b) && a.kind != ExactPath && '/' !in x && Narrower(a, b)
    ensures b.kind != ExactPath && (b.kind != TopRoot ==> BaseMatches(b, NameOf(a, x)))
  {
    Accepts(a, x);
    var dir, name := DirOf(a), NameOf(a, x);
    var near, far := dir + "/" + name, dir + "/q/" + name;
    assert Matches(b, near) && Matches(b, far) && |near| < |far|;
    BaseOfJoined(dir, name);
  }

  function Other(c: char): char { if c == 'x' then 'y' else 'x' }

  /** No wider matcher has a stricter kind, except that * contains every directory. */
  lemma WiderIsLater(a: Matcher, b: Matcher)
    requires Made(a) && Made(b) && a.kind != ExactPath && Narrower(a, b)
    ensures b.kind != ExactPath
    ensures b.kind == BasenameExact ==> a.kind == BasenameExact
    ensures b.kind == BasenamePrefixSuffix ==> a.kind == BasenameExact || a.kind == BasenamePrefixSuffix
    ensures b.kind == BasenameSuffix && a.kind == TopRoot ==> BareStar(b)
  {
    NamesDiffer(a);
    WiderAccepts(a, b, "");
    var v, s := OrEmpty(b.value), OrEmpty(b.suffix);
    if b.kind == BasenameExact {
      WiderAccepts(a, b, "z");
    } else if b.kind == BasenamePrefixSuffix {
      PrefixRefuses(a, b);
      WiderAccepts(a, b, [Other(v[0])]);
    } else if b.kind == BasenameSuffix && s != "" {
      SuffixRefuses(a, b);
      WiderAccepts(a, b, [Other(s[|s| - 1])]);
    }
  }

  lemma NamesDiffer(a: Matcher)
    ensures a.kind != BasenameExact ==> NameOf(a, "z") != NameOf(a, "")
  {
    if a.kind != BasenameExact {
      assert |NameOf(a, "z")| == |NameOf(a, "")| + 1;
    }
  }

  /** A name that starts otherwise is no name of a prefix pattern. */
  lemma PrefixRefuses(a: Matcher, b: Matcher)
    requires WellFormed(a) && b.kind == BasenamePrefixSuffix && OrEmpty(b.value) != ""
    ensures a.kind == BasenameSuffix || a.kind == TopRoot ==> !BaseMatches(b, NameOf(a, [Other(OrEmpty(b.value)[0])]))
  {
    var v := OrEmpty(b.value);
    if a.kind == BasenameSuffix || a.kind == TopRoot {
      var name := NameOf(a, [Other(v[0])]);
      assert name[0] == Other(v[0]);
      assert |v| <= |name| ==> name[..|v|][0] == name[0];
    }
  }

  /** A name that ends otherwise is no name of a suffix pattern. */
  lemma SuffixRefuses(a: Matcher, b: Matcher)
    requires b.kind == BasenameSuffix && OrEmpty(b.suffix) != ""
    ensures a.kind == TopRoot ==> !BaseMatches(b, NameOf(a, [Other(OrEmpty(b.suffix)[|OrEmpty(b.suffix)| - 1])]))
  {
  }

  /**
   Priority is specificity across kinds: of two matchers of different kinds the one that
   accepts only paths of the other comes first, unless it is a whole directory and the
   other the bare *, which then comes first.
   */
  lemma NarrowerFirst(a: Matcher, b: Matcher)
    requires Made(a) && Made(b) && a.kind != b.kind && Narrower(a, b)
    ensures Before(a, b) <==> a.kind != TopRoot
    ensures a.kind == TopRoot ==> BareStar(b) && Before(b, a)
  {
    hide Matches, Narrower, CompareText;
    if a.kind != ExactPath {
      WiderIsLater(a, b);
    }
  }

  /** Whole directories come last. */
  lemma DirectoriesLast(a: Matcher, b: Matcher)
    requires a.kind != TopRoot && b.kind == TopRoot
    ensures Before(a, b) && !Before(b, a)
  {
    hide CompareText;
  }

  /** Exact paths come first. */
  lemma ExactFirst(a: Matcher, b: Matcher)
    requires a.kind == ExactPath && b.kind != ExactPath
    ensures Before(a, b) && !Before(b, a)
  {
    hide CompareText;
  }

  /** Within a kind the texts decide: root, then value, then suffix. */
  lemma SameKindByText(a: Matcher, b: Matcher)
    requires a.kind == b.kind
    ensures Before(a, b) <==>
              || TextLess(OrEmpty(a.root), OrEmpty(b.root))
              || (OrEmpty(a.root) == OrEmpty(b.root) && TextLess(OrEmpty(a.value), OrEmpty(b.value)))
              || (OrEmpty(a.root) == OrEmpty(b.root) && OrEmpty(a.value) == OrEmpty(b.value)
                  && TextLess(OrEmpty(a.suffix), OrEmpty(b.suffix)))
  {
    hide CompareText, TextLess;
    CompareIsLexicographic(OrEmpty(a.root), OrEmpty(b.root));
    CompareIsLexicographic(OrEmpty(a.value), OrEmpty(b.value));
    CompareIsLexicographic(OrEmpty(a.suffix), OrEmpty(b.suffix));
    TextOrder(OrEmpty(a.root), OrEmpty(b.root));
    TextOrder(OrEmpty(a.value), OrEmpty(b.value));
    TextOrder(OrEmpty(a.suffix), OrEmpty(b.suffix));
  }

  // ---------------------------------------------------------------- what the table answers

  /** Where nothing but a and b matches, the table answers with the one that comes first. */
  lemma FirstOfTwo(values: seq<Matcher>, a: Matcher, b: Matcher, path: string)
    requires a in values && Matches(a, path) && Before(a, b)
    requires forall m :: m in values && Matches(m, path) ==> m == a || m == b
    ensures FirstMode(Sort(values), path) == Some(a.mode)
  {
    hide Matches, Before, FirstMode, Sort;
    var w := SortedFirst(values, path);
  }

  /** So on a path that both match, the narrower of two matchers of different kinds decides. */
  lemma NarrowerDecides(values: seq<Matcher>, a: Matcher, b: Matcher, path: string)
    requires Made(a) && Made(b) && a.kind != b.kind && a.kind != TopRoot && Narrower(a, b)
    requires a in values && Matches(a, path) && forall m :: m in values && Matches(m, path) ==> m == a || m == b
    ensures FirstMode(Sort(values), path) == Some(a.mode)
  {
    hide Made, Before, Narrower, Matches;
    NarrowerFirst(a, b);
    FirstOfTwo(values, a, b, path);
  }

  const PREFIXED := Matcher(BasenamePrefixSuffix, Keep, None, Some("foo"), Some(".txt"))
  const SUFFIXED := Matcher(BasenameSuffix, Replace, None, None, Some(".txt"))
  const LONGER := Matcher(BasenameSuffix, Keep, None, None, Some("x.txt"))

  /** foo*.txt decides against *.txt for foo1.txt. */
  lemma PrefixDecides()
    ensures FirstMode(Sort([SUFFIXED, PREFIXED]), "foo1.txt") == Some(Keep)
  {
    var values, path := [SUFFIXED, PREFIXED], "foo1.txt";
    BaseOfPlain(path);
    assert path[..3] == "foo" && path[|path| - 4..] == ".txt";
    assert values[0] == SUFFIXED && values[1] == PREFIXED;
    hide Base, Top, FirstMode, Sort;
    NarrowerDecides(values, PREFIXED, SUFFIXED, path);
  }

  /** Within a kind the narrower need not come first: *.txt decides against *x.txt for ax.txt. */
  lemma BroaderSuffixDecides()
    ensures Narrower(LONGER, SUFFIXED) && !Narrower(SUFFIXED, LONGER)
    ensures FirstMode(Sort([LONGER, SUFFIXED]), "ax.txt") == Some(Replace)
  {
    hide Narrower, FirstMode, Sort, Matches, Before;
    LongerIsNarrower();
    SuffixedIsWider();
    SuffixedFirst();
    BothMatch();
    var values := [LONGER, SUFFIXED];
    assert values[0] == LONGER && values[1] == SUFFIXED;
    FirstOfTwo(values, SUFFIXED, LONGER, "ax.txt");
  }

  lemma LongerIsNarrower()
    ensures Narrower(LONGER, SUFFIXED)
  {
    hide Base, Top;
    assert "x.txt"[1..] == ".txt";
    forall p | Matches(LONGER, p)
      ensures Matches(SUFFIXED, p)
    {
      SuffixThrough(Base(p), "x.txt", ".txt");
    }
  }

  lemma SuffixedIsWider()
    ensures !Narrower(SUFFIXED, LONGER)
  {
    hide Top;
    BaseOfPlain("b.txt");
    assert "b.txt"[1..] == ".txt" && "b.txt"[0..] == "b.txt";
    assert Matches(SUFFIXED, "b.txt") && !Matches(LONGER, "b.txt");
  }

  lemma SuffixedFirst()
    ensures Before(SUFFIXED, LONGER)
  {
    assert CompareText(".txt", "x.txt") == Less;
  }

  lemma BothMatch()
    ensures Matches(SUFFIXED, "ax.txt") && Matches(LONGER, "ax.txt")
  {
    hide Top;
    BaseOfPlain("ax.txt");
    assert "ax.txt"[1..] == "x.txt" && "ax.txt"[2..] == ".txt";
  }

  // ---------------------------------------------------------------- parts of a path

  /** The top is what stands before the first slash, the base what stands after the last. */
  lemma {:induction false} TopExact(path: string)
    ensures '/' !in Top(path) && (path == Top(path) || (|Top(path)| < |path| && path[..|Top(path)|] == Top(path) && path[|Top(path)|] == '/'))
  {
    if path != "" && path[0] != '/' {
      TopExact(path[1..]);
      assert path == [path[0]] + path[1..];
    }
  }

  lemma JoinedOn(above: string, base: string, last: char)
    ensures above + "/" + base + [last] == above + "/" + (base + [last])
  {
  }

  lemma {:induction false} BaseExact(path: string) returns (above: string)
    ensures '/' !in Base(path)
    ensures path == Base(path) || path == above + "/" + Base(path)
  {
    above := "";
    if path != "" && path[|path| - 1] != '/' {
      var front, last := path[..|path| - 1], path[|path| - 1];
      above := BaseExact(front);
      assert path == front + [last];
      if front != Base(front) {
        JoinedOn(above, Base(front), last);
      }
    } else if path != "" {
      above := path[..|path| - 1];
      assert path == above + "/" + "";
    }
  }

  // ---------------------------------------------------------------- from rules to matchers

  /** Some rule, neither a directory nor a kernel, applies to the board, has the mode and takes the path. */
  predicate SomeRuleTakes(rules: seq<LayoutRule>, b: Board, mode: Mode, path: string) {
    exists i :: 0 <= i < |rules|
                && !rules[i].shape.DirectoryRule? && rules[i].mode != Kernel && rules[i].mode == mode
                && b in BoardsOf(rules[i].scope) && RuleTakes(rules[i], path)
  }

  predicate SomeEntryMatches(entries: seq<Entry>, b: Board, mode: Mode, path: string) {
    exists i :: 0 <= i < |entries| && b in BoardsOf(entries[i].scope) && entries[i].matcher.mode == mode && Matches(entries[i].matcher, path)
  }

  lemma EntriesAppend(x: seq<Entry>, y: seq<Entry>, b: Board, mode: Mode, path: string)
    ensures SomeEntryMatches(x + y, b, mode, path) <==> SomeEntryMatches(x, b, mode, path) || SomeEntryMatches(y, b, mode, path)
  {
    hide Matches, BoardsOf;
    var z := x + y;
    if SomeEntryMatches(x, b, mode, path) {
      var i :| 0 <= i < |x| && b in BoardsOf(x[i].scope) && x[i].matcher.mode == mode && Matches(x[i].matcher, path);
      assert z[i] == x[i];
    }
    if SomeEntryMatches(y, b, mode, path) {
      var i :| 0 <= i < |y| && b in BoardsOf(y[i].scope) && y[i].matcher.mode == mode && Matches(y[i].matcher, path);
      assert z[|x| + i] == y[i];
    }
    if SomeEntryMatches(z, b, mode, path) {
      var i :| 0 <= i < |z| && b in BoardsOf(z[i].scope) && z[i].matcher.mode == mode && Matches(z[i].matcher, path);
      assert i < |x| ==> z[i] == x[i];
      assert i >= |x| ==> z[i] == y[i - |x|];
    }
  }

  lemma {:induction false} PatternsKeepMode(patterns: seq<string>, root: Option<string>, mode: Mode)
    requires DevicePatterns(patterns, root, mode).Ok?
    ensures forall m :: m in DevicePatterns(patterns, root, mode).value ==> m.mode == mode
  {
    if patterns != [] {
      PatternsKeepMode(patterns[1..], root, mode);
      PatternKeepsMode(patterns[0], root, mode);
    }
  }

  lemma PatternKeepsMode(pattern: string, root: Option<string>, mode: Mode)
    requires DevicePattern(pattern, root, mode).Ok?
    ensures DevicePattern(pattern, root, mode).value.mode == mode
  {
  }

  /** One rule's matchers, with its scope and mode, accept what the rule takes. */
  lemma RuleEntries(rule: LayoutRule, b: Board, mode: Mode, path: string)
    requires rule.target != "" && rule.target[0] != '/' && DeviceMatchers(rule).Ok?
    ensures SomeEntryMatches(Scopes(DeviceMatchers(rule).value, rule.scope), b, mode, path) <==>
              b in BoardsOf(rule.scope) && rule.mode == mode && RuleTakes(rule, path)
  {
    MatchersTakeRule(rule, path);
    MatchersKeepMode(rule);
    hide Matches, BoardsOf, DeviceMatchers, RuleTakes;
    var ms := DeviceMatchers(rule).value;
    var es := Scopes(ms, rule.scope);
    if m :| m in ms && Matches(m, path) {
      var i :| 0 <= i < |ms| && ms[i] == m;
      assert es[i] == Entry(m, rule.scope);
    }
    if SomeEntryMatches(es, b, mode, path) {
      var i :| 0 <= i < |es| && b in BoardsOf(es[i].scope) && es[i].matcher.mode == mode && Matches(es[i].matcher, path);
      assert es[i] == Entry(ms[i], rule.scope) && ms[i] in ms;
    }
  }

  lemma MatchersKeepMode(rule: LayoutRule)
    requires rule.target != "" && rule.target[0] != '/' && DeviceMatchers(rule).Ok?
    ensures forall m :: m in DeviceMatchers(rule).value ==> m.mode == rule.mode
  {
    hide DevicePatterns;
    if rule.shape.TreeRule? {
      if rule.includes != [] {
        PatternsKeepMode(rule.includes, Some(Top(rule.target)), rule.mode);
      }
    } else if StartsWith(rule.target, "**/") {
      PatternsKeepMode([rule.target[3..]], None, rule.mode);
    } else if '*' in rule.target || '?' in rule.target {
      PatternsKeepMode([rule.target], None, rule.mode);
    }
  }

  lemma SomeRuleSplits(rules: seq<LayoutRule>, b: Board, mode: Mode, path: string)
    requires rules != []
    ensures SomeRuleTakes(rules, b, mode, path) <==>
              || (!rules[0].shape.DirectoryRule? && rules[0].mode != Kernel && rules[0].mode == mode
                  && b in BoardsOf(rules[0].scope) && RuleTakes(rules[0], path))
              || SomeRuleTakes(rules[1..], b, mode, path)
  {
    hide RuleTakes, BoardsOf;
    assert rules == [rules[0]] + rules[1..];
    if SomeRuleTakes(rules[1..], b, mode, path) {
      var i :| 0 <= i < |rules[1..]| && !rules[1..][i].shape.DirectoryRule? && rules[1..][i].mode != Kernel && rules[1..][i].mode == mode
               && b in BoardsOf(rules[1..][i].scope) && RuleTakes(rules[1..][i], path);
      assert rules[i + 1] == rules[1..][i];
    }
    assert forall i :: 0 < i < |rules| ==> rules[i] == rules[1..][i - 1];
  }

  /**
   The collected entries are the layout's rules: on every board, for every mode and
   path, some entry matches exactly when some rule that is neither a directory nor a
   kernel takes it.
   */
  lemma {:induction false} EntriesAreRules(rules: seq<LayoutRule>, b: Board, mode: Mode, path: string)
    requires Loaded(rules) && Expand(rules).Ok?
    ensures SomeEntryMatches(Expand(rules).value, b, mode, path) <==> SomeRuleTakes(rules, b, mode, path)
  {
    if rules != [] {
      assert Loaded(rules[1..]) && rules[0].target != "" && rules[0].target[0] != '/';
      EntriesAreRules(rules[1..], b, mode, path);
      SomeRuleSplits(rules, b, mode, path);
      hide SomeEntryMatches, SomeRuleTakes, RuleTakes, BoardsOf, DeviceMatchers;
      if !rules[0].shape.DirectoryRule? && rules[0].mode != Kernel {
        RuleEntries(rules[0], b, mode, path);
        EntriesAppend(Scopes(DeviceMatchers(rules[0]).value, rules[0].scope), Expand(rules[1..]).value, b, mode, path);
      }
    }
  }

  // ---------------------------------------------------------------- policies

  /** What a compiled table answers for each mode of the projection. */
  lemma PoliciesSpelled(table: seq<Matcher>, k: Kernels, path: string)
    ensures var policy := ClassifyFrom(CompiledAll(table), k, path);
            && (policy == None <==> FirstMode(table, path) == None)
            && (policy == Some("config-template") <==> FirstMode(table, path) == Some(Config))
            && (policy == Some("kernel") <==> FirstMode(table, path) == Some(Kernel))
            && (policy == Some("preserve") <==> FirstMode(table, path) == Some(Keep))
            && (policy == Some("metadata") <==> FirstMode(table, path) == Some(Metadata))
            && (policy == Some("managed-replace") <==> FirstMode(table, path) == Some(Replace))
  {
    hide FirstMode, ClassifyFrom;
    ScansAgree(table, k, path);
  }

  /** A kernel target has the kernel policy, whatever else matches it. */
  lemma KernelsAreKernels(table: seq<Matcher>, k: Kernels, path: string)
    requires KernelMatch(k.bases, k.machines, path)
    ensures ClassifyFrom([KERNEL_RULE] + CompiledAll(table), k, path) == Some("kernel")
  {
  }

  /** Paths the FAT rules refuse, and directories, have no policy. */
  lemma RefusedPaths(rules: seq<CompiledRule>, k: Kernels, fatValid: string -> bool, path: string)
    requires !fatValid(path) || path == "" || path[|path| - 1] == '/'
    ensures Classify(rules, k, fatValid, path) == None
  {
  }
}
