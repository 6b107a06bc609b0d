/**
 The path-policy compiler of tools/sd_layout.py and tools/update_path_policy.py:
 device matchers, their overlap test, the scope validation that lets one table
 stand for both boards, and the compiled classifier.
 */
module Matchers {
  datatype Option<T> = None | Some(value: T)

  datatype Kind = ExactPath | BasenameExact | BasenamePrefixSuffix | BasenameSuffix | TopRoot
  datatype Mode = Config | Kernel | Keep | Metadata | Replace

  datatype Matcher = Matcher(kind: Kind, mode: Mode, root: Option<string>, value: Option<string>, suffix: Option<string>)

  /** Python's `x or ""`. */
  function OrEmpty(o: Option<string>): string {
    if o.Some? then o.value else ""
  }

  predicate StartsWith(s: string, p: string) {
    |p| <= |s| && s[..|p|] == p
  }

  predicate EndsWith(s: string, e: string) {
    |e| <= |s| && s[|s| - |e|..] == e
  }

  /** path.split("/", 1)[0] */
  function Top(path: string): string {
    if path == "" || path[0] == '/' then "" else [path[0]] + Top(path[1..])
  }

  /** path.rsplit("/", 1)[-1] */
  function Base(path: string): string {
    if path == "" || path[|path| - 1] == '/' then "" else Base(path[..|path| - 1]) + [path[|path| - 1]]
  }

  predicate BaseMatches(m: Matcher, base: string) {
    match m.kind
    case BasenameExact => m.value == Some(base)
    case BasenameSuffix => EndsWith(base, OrEmpty(m.suffix))
    case BasenamePrefixSuffix => StartsWith(base, OrEmpty(m.value)) && EndsWith(base, OrEmpty(m.suffix))
    case _ => false
  }

  predicate Matches(m: Matcher, path: string) {
    && (m.root.Some? ==> Top(path) == m.root.value)
    && match m.kind
       case ExactPath => m.value == Some(path)
       case TopRoot => true
       case _ => BaseMatches(m, Base(path))
  }

  /** What _device_matcher builds: names without a slash, roots where they belong. */
  predicate WellFormed(m: Matcher) {
    && (m.root.Some? ==> m.root.value != "" && '/' !in m.root.value)
    && (m.kind == ExactPath ==> m.root.None? && m.value.Some? && m.suffix.None?)
    && (m.kind == TopRoot ==> m.root.Some?)
    && (m.kind == BasenameExact ==> m.value.Some?)
    && (m.kind == BasenameSuffix ==> m.value.None?)
    && (m.kind != ExactPath ==> '/' !in OrEmpty(m.value) && '/' !in OrEmpty(m.suffix))
  }

  // ---------------------------------------------------------------- the overlap decision

  /** _basename_matchers_overlap, on basename matchers. */
  predicate BaseOverlap(a: Matcher, b: Matcher) {
    if a.kind == BasenameExact then
      if b.kind == BasenameExact then a.value == b.value
      else StartsWith(OrEmpty(a.value), OrEmpty(b.value)) && EndsWith(OrEmpty(a.value), OrEmpty(b.suffix))
    else if b.kind == BasenameExact then
      StartsWith(OrEmpty(b.value), OrEmpty(a.value)) && EndsWith(OrEmpty(b.value), OrEmpty(a.suffix))
    else
      && (StartsWith(OrEmpty(a.value), OrEmpty(b.value)) || StartsWith(OrEmpty(b.value), OrEmpty(a.value)))
      && (EndsWith(OrEmpty(a.suffix), OrEmpty(b.suffix)) || EndsWith(OrEmpty(b.suffix), OrEmpty(a.suffix)))
  }

  /** _device_matchers_overlap */
  predicate Overlap(a: Matcher, b: Matcher) {
    if a.kind == ExactPath then Matches(b, OrEmpty(a.value))
    else if b.kind == ExactPath then Matches(a, OrEmpty(b.value))
    else if a.root.Some? && b.root.Some? && a.root != b.root then false
    else if a.kind == TopRoot || b.kind == TopRoot then true
    else BaseOverlap(a, b)
  }

  lemma {:induction false} TopOfPlain(s: string)
    requires '/' !in s
    ensures Top(s) == s
  {
    if s != "" {
      TopOfPlain(s[1..]);
      assert s == [s[0]] + s[1..];
    }
  }

  lemma {:induction false} TopOfJoined(r: string, rest: string)
    requires '/' !in r
    ensures Top(r + "/" + rest) == r
  {
    var path := r + "/" + rest;
    if r != "" {
      assert path[0] == r[0] && path[1..] == r[1..] + "/" + rest;
      TopOfJoined(r[1..], rest);
      assert r == [r[0]] + r[1..];
    }
  }

  lemma {:induction false} BaseOfPlain(s: string)
    requires '/' !in s
    ensures Base(s) == s
  {
    if s != "" {
      var front := s[..|s| - 1];
      BaseOfPlain(front);
      assert s == front + [s[|s| - 1]];
    }
  }

  lemma {:induction false} BaseOfJoined(r: string, base: string)
    requires '/' !in base
    ensures Base(r + "/" + base) == base
  {
    var path := r + "/" + base;
    if base != "" {
      var front := base[..|base| - 1];
      assert path[|path| - 1] == base[|base| - 1] && path[..|path| - 1] == r + "/" + front;
      BaseOfJoined(r, front);
      assert base == front + [base[|base| - 1]];
    }
  }

  /** The basename that meets both of two compatible affix constraints. */
  function Witness(p: string, p': string, s: string, s': string): string {
    (if |p| >= |p'| then p else p') + (if |s| >= |s'| then s else s')
  }

  function CommonBase(a: Matcher, b: Matcher): string {
    if a.kind == BasenameExact then OrEmpty(a.value)
    else if b.kind == BasenameExact then OrEmpty(b.value)
    else Witness(OrEmpty(a.value), OrEmpty(b.value), OrEmpty(a.suffix), OrEmpty(b.suffix))
  }

  /** A basename that one matcher accepts on its own. */
  function OwnBase(m: Matcher): string {
    if m.kind == BasenameExact then OrEmpty(m.value) else OrEmpty(m.value) + OrEmpty(m.suffix)
  }

  function CommonPath(a: Matcher, b: Matcher): string {
    if a.kind == ExactPath then OrEmpty(a.value)
    else if b.kind == ExactPath then OrEmpty(b.value)
    else
      var base := if a.kind == TopRoot then OwnBase(b) else if b.kind == TopRoot then OwnBase(a) else CommonBase(a, b);
      var root := if a.root.Some? then a.root else b.root;
      if root.Some? then root.value + "/" + base else base
  }

  predicate Basename(m: Matcher) {
    m.kind == BasenameExact || m.kind == BasenameSuffix || m.kind == BasenamePrefixSuffix
  }

  lemma WitnessAffixes(p: string, p': string, s: string, s': string)
    requires StartsWith(p, p') || StartsWith(p', p)
    requires EndsWith(s, s') || EndsWith(s', s)
    ensures var w := Witness(p, p', s, s');
            StartsWith(w, p) && StartsWith(w, p') && EndsWith(w, s) && EndsWith(w, s')
  {
    var w := Witness(p, p', s, s');
    var longP, longS := if |p| >= |p'| then p else p', if |s| >= |s'| then s else s';
    assert StartsWith(longP, p) && StartsWith(longP, p') && EndsWith(longS, s) && EndsWith(longS, s');
    assert w[..|longP|] == longP && w[|w| - |longS|..] == longS;
    PrefixThrough(w, longP, p);
    PrefixThrough(w, longP, p');
    SuffixThrough(w, longS, s);
    SuffixThrough(w, longS, s');
  }

  lemma PrefixThrough(w: string, long: string, short: string)
    requires StartsWith(w, long) && StartsWith(long, short)
    ensures StartsWith(w, short)
  {
    assert w[..|short|] == w[..|long|][..|short|];
  }

  lemma SuffixThrough(w: string, long: string, short: string)
    requires EndsWith(w, long) && EndsWith(long, short)
    ensures EndsWith(w, short)
  {
    assert w[|w| - |short|..] == w[|w| - |long|..][|long| - |short|..];
  }

  lemma BaseWitness(a: Matcher, b: Matcher)
    requires WellFormed(a) && WellFormed(b) && Basename(a) && Basename(b) && BaseOverlap(a, b)
    ensures BaseMatches(a, CommonBase(a, b)) && BaseMatches(b, CommonBase(a, b)) && '/' !in CommonBase(a, b)
  {
    if a.kind != BasenameExact && b.kind != BasenameExact {
      WitnessAffixes(OrEmpty(a.value), OrEmpty(b.value), OrEmpty(a.suffix), OrEmpty(b.suffix));
    }
  }

  lemma ComparablePrefixes(w: string, p: string, p': string)
    requires StartsWith(w, p) && StartsWith(w, p')
    ensures StartsWith(p, p') || StartsWith(p', p)
  {
    if |p'| <= |p| {
      assert p[..|p'|] == w[..|p|][..|p'|];
    } else {
      assert p'[..|p|] == w[..|p'|][..|p|];
    }
  }

  lemma ComparableSuffixes(w: string, s: string, s': string)
    requires EndsWith(w, s) && EndsWith(w, s')
    ensures EndsWith(s, s') || EndsWith(s', s)
  {
    if |s'| <= |s| {
      assert s[|s| - |s'|..] == w[|w| - |s|..][|s| - |s'|..] == w[|w| - |s'|..];
    } else {
      assert s'[|s'| - |s|..] == w[|w| - |s'|..][|s'| - |s|..] == w[|w| - |s|..];
    }
  }

  lemma BaseOverlapNeeded(a: Matcher, b: Matcher, base: string)
    requires WellFormed(a) && WellFormed(b) && BaseMatches(a, base) && BaseMatches(b, base)
    ensures BaseOverlap(a, b)
  {
    if a.kind != BasenameExact && b.kind != BasenameExact {
      ComparablePrefixes(base, OrEmpty(a.value), OrEmpty(b.value));
      ComparableSuffixes(base, OrEmpty(a.suffix), OrEmpty(b.suffix));
    }
  }

  lemma PlacedMatches(m: Matcher, r: Option<string>, base: string)
    requires WellFormed(m) && m.kind != ExactPath && (m.root.Some? ==> r == m.root)
    requires (r.Some? ==> '/' !in r.value) && '/' !in base
    requires m.kind == TopRoot || BaseMatches(m, base)
    ensures Matches(m, if r.Some? then r.value + "/" + base else base)
  {
    if r.Some? {
      TopOfJoined(r.value, base);
      BaseOfJoined(r.value, base);
    } else {
      BaseOfPlain(base);
    }
  }

  lemma OwnBaseMatches(m: Matcher)
    requires WellFormed(m) && m.kind != ExactPath
    ensures '/' !in OwnBase(m) && (m.kind == TopRoot || BaseMatches(m, OwnBase(m)))
  {
    var v, s := OrEmpty(m.value), OrEmpty(m.suffix);
    assert (v + s)[..|v|] == v && (v + s)[|v + s| - |s|..] == s;
  }

  /** The overlap test answers exactly whether some path matches both matchers. */
  lemma OverlapIsExact(a: Matcher, b: Matcher)
    requires WellFormed(a) && WellFormed(b)
    ensures Overlap(a, b) <==> exists path :: Matches(a, path) && Matches(b, path)
  {
    if Overlap(a, b) {
      OverlapHasWitness(a, b);
    }
    forall path | Matches(a, path) && Matches(b, path)
      ensures Overlap(a, b)
    {
      if a.kind != ExactPath && b.kind != ExactPath && a.kind != TopRoot && b.kind != TopRoot {
        BaseOverlapNeeded(a, b, Base(path));
      }
    }
  }

  lemma OverlapHasWitness(a: Matcher, b: Matcher)
    requires WellFormed(a) && WellFormed(b) && Overlap(a, b)
    ensures Matches(a, CommonPath(a, b)) && Matches(b, CommonPath(a, b))
  {
    if a.kind != ExactPath && b.kind != ExactPath {
      var root := if a.root.Some? then a.root else b.root;
      var base := if a.kind == TopRoot then OwnBase(b) else if b.kind == TopRoot then OwnBase(a) else CommonBase(a, b);
      OwnBaseMatches(a);
      OwnBaseMatches(b);
      if a.kind != TopRoot && b.kind != TopRoot {
        BaseWitness(a, b);
      }
      PlacedMatches(a, root, base);
      PlacedMatches(b, root, base);
    }
  }
}

/** Priority order, first-match tables and the projection of a layout. */
module Projections {
  import opened Matchers
  import opened Ordering

  function Then(o: Order, p: Order): Order { if o.Equal? then p else o }

  function CompareNat(a: nat, b: nat): Order { if a < b then Less else if a == b then Equal else Greater }

  function Rank(k: Kind): nat {
    match k
    case ExactPath => 0
    case BasenameExact => 1
    case BasenamePrefixSuffix => 2
    case BasenameSuffix => 3
    case TopRoot => 4
  }

  datatype Key = Key(kind: Kind, root: string, value: string, suffix: string)

  function KeyOf(m: Matcher): Key {
    Key(m.kind, OrEmpty(m.root), OrEmpty(m.value), OrEmpty(m.suffix))
  }

  /** _device_matcher_order_key: the rank fixes the kind. */
  function CompareKeys(a: Key, b: Key): Order {
    Then(CompareNat(Rank(a.kind), Rank(b.kind)),
         Then(CompareText(a.root, b.root), Then(CompareText(a.value, b.value), CompareText(a.suffix, b.suffix))))
  }

  predicate Before(a: Matcher, b: Matcher) {
    CompareKeys(KeyOf(a), KeyOf(b)) == Less
  }

  lemma KeyOrder(a: Key, b: Key)
    ensures CompareKeys(a, b) == Equal <==> a == b
    ensures CompareKeys(a, b) == Less <==> CompareKeys(b, a) == Greater
    ensures CompareKeys(b, a) == Less <==> CompareKeys(a, b) == Greater
  {
    TextOrder(a.root, b.root);
    TextOrder(a.value, b.value);
    TextOrder(a.suffix, b.suffix);
  }

  lemma KeyTransitive(a: Key, b: Key, c: Key)
    requires CompareKeys(a, b) == Less && CompareKeys(b, c) == Less
    ensures CompareKeys(a, c) == Less
  {
    TextOrder(a.root, b.root);
    TextOrder(b.root, c.root);
    TextOrder(a.value, b.value);
    TextOrder(b.value, c.value);
    if CompareText(a.root, b.root) == Less && CompareText(b.root, c.root) == Less {
      TextTransitive(a.root, b.root, c.root);
    }
    if CompareText(a.value, b.value) == Less && CompareText(b.value, c.value) == Less {
      TextTransitive(a.value, b.value, c.value);
    }
    if CompareText(a.suffix, b.suffix) == Less && CompareText(b.suffix, c.suffix) == Less {
      TextTransitive(a.suffix, b.suffix, c.suffix);
    }
  }

  // ---------------------------------------------------------------- sorting and first match

  function Insert<T>(before: (T, T) -> bool, m: T, s: seq<T>): seq<T> {
    if s == [] || !before(s[0], m) then [m] + s else [s[0]] + Insert(before, m, s[1..])
  }

  /** Python's sorted(): stable, by the given order of keys. */
  function SortBy<T>(before: (T, T) -> bool, s: seq<T>): seq<T> {
    if s == [] then [] else Insert(before, s[0], SortBy(before, s[1..]))
  }

  /** The table in priority order. */
  function Sort(s: seq<Matcher>): seq<Matcher> {
    SortBy(Before, s)
  }

  function FirstMode(table: seq<Matcher>, path: string): Option<Mode> {
    if table == [] then None
    else if Matches(table[0], path) then Some(table[0].mode)
    else FirstMode(table[1..], path)
  }

  /** `m` wins on `path`: it matches and nothing that matches comes before it. */
  predicate Wins(m: Matcher, table: seq<Matcher>, path: string) {
    m in table && Matches(m, path) && forall n :: n in table && Matches(n, path) ==> !Before(n, m)
  }

  predicate Sorted(s: seq<Matcher>) {
    forall i, j :: 0 <= i < j < |s| ==> !Before(s[j], s[i])
  }

  lemma {:induction false} InsertElements(m: Matcher, s: seq<Matcher>)
    ensures multiset(Insert(Before, m, s)) == multiset(s) + multiset{m}
    ensures forall n :: n in Insert(Before, m, s) ==> n == m || n in s
  {
    if s != [] && Before(s[0], m) {
      InsertElements(m, s[1..]);
      assert s == [s[0]] + s[1..];
    }
  }

  lemma NotAfter(a: Matcher, b: Matcher, c: Matcher)
    requires !Before(b, a) && !Before(c, b)
    ensures !Before(c, a)
  {
    KeyOrder(KeyOf(a), KeyOf(b));
    KeyOrder(KeyOf(b), KeyOf(c));
    KeyOrder(KeyOf(a), KeyOf(c));
    if KeyOf(a) != KeyOf(b) && KeyOf(b) != KeyOf(c) {
      KeyTransitive(KeyOf(a), KeyOf(b), KeyOf(c));
    }
  }

  lemma PrependSorted(m: Matcher, s: seq<Matcher>)
    requires Sorted(s) && forall n :: n in s ==> !Before(n, m)
    ensures Sorted([m] + s)
  {
    forall i, j | 0 <= i < j < |[m] + s|
      ensures !Before(([m] + s)[j], ([m] + s)[i])
    {
      assert ([m] + s)[j] == s[j - 1];
    }
  }

  lemma {:induction false} InsertSorted(m: Matcher, s: seq<Matcher>)
    requires Sorted(s)
    ensures Sorted(Insert(Before, m, s))
  {
    if s == [] {
    } else if Before(s[0], m) {
      InsertSorted(m, s[1..]);
      InsertElements(m, s[1..]);
      KeyOrder(KeyOf(m), KeyOf(s[0]));
      PrependSorted(s[0], Insert(Before, m, s[1..]));
    } else {
      forall n | n in s
        ensures !Before(n, m)
      {
        var j :| 0 <= j < |s| && s[j] == n;
        if j > 0 {
          NotAfter(m, s[0], n);
        }
      }
      PrependSorted(m, s);
    }
  }

  lemma {:induction false} SortSorts(s: seq<Matcher>)
    ensures Sorted(Sort(s)) && multiset(Sort(s)) == multiset(s)
  {
    if s != [] {
      SortSorts(s[1..]);
      InsertSorted(s[0], Sort(s[1..]));
      InsertElements(s[0], Sort(s[1..]));
      assert s == [s[0]] + s[1..];
    }
  }

  lemma {:induction false} FirstInSorted(table: seq<Matcher>, path: string) returns (m: Matcher)
    requires Sorted(table) && exists n :: n in table && Matches(n, path)
    ensures Wins(m, table, path) && FirstMode(table, path) == Some(m.mode)
  {
    if Matches(table[0], path) {
      m := table[0];
      forall n | n in table && Matches(n, path)
        ensures !Before(n, m)
      {
        KeyOrder(KeyOf(m), KeyOf(m));
        var i :| 0 <= i < |table| && table[i] == n;
      }
    } else {
      var n :| n in table && Matches(n, path);
      assert n in table[1..];
      m := FirstInSorted(table[1..], path);
    }
  }

  /** First match over the sorted table is the winner of the unsorted one. */
  lemma SortedFirst(s: seq<Matcher>, path: string) returns (m: Matcher)
    requires exists n :: n in s && Matches(n, path)
    ensures Wins(m, s, path) && FirstMode(Sort(s), path) == Some(m.mode)
  {
    SortSorts(s);
    assert forall n :: n in Sort(s) <==> n in multiset(Sort(s));
    assert forall n :: n in s <==> n in multiset(s);
    m := FirstInSorted(Sort(s), path);
  }

  // ---------------------------------------------------------------- the projection of a layout

  datatype Checked<T> = Ok(value: T) | Rejected

  datatype Board = Pi4 | Pi5
  datatype Scope = Both | Only(board: Board)

  function BoardsOf(s: Scope): set<Board> {
    if s.Both? then {Pi4, Pi5} else {s.board}
  }

  /** One matcher of one layout rule, with the rule's scope. */
  datatype Entry = Entry(matcher: Matcher, scope: Scope)

  // ---------------------------------------------------------------- from layout rules to matchers

  datatype RuleShape = FileRule | TreeRule | DirectoryRule
  datatype LayoutRule =
    LayoutRule(shape: RuleShape, scope: Scope, target: string, mode: Mode, includes: seq<string>, optional: bool)

  function CountStars(s: string): nat {
    if s == "" then 0 else (if s[0] == '*' then 1 else 0) + CountStars(s[1..])
  }

  /** pattern.split("*", 1) for a pattern that has a star. */
  function BeforeStar(s: string): (p: string)
    requires '*' in s
    ensures |p| < |s| && s[..|p|] == p && s[|p|] == '*'
  {
    if s[0] == '*' then "" else [s[0]] + BeforeStar(s[1..])
  }

  /** _device_pattern */
  function DevicePattern(pattern: string, root: Option<string>, mode: Mode): (r: Checked<Matcher>)
    ensures r.Ok? && (root.Some? ==> root.value != "" && '/' !in root.value) ==> WellFormed(r.value)
  {
    if '/' in pattern || '?' in pattern || CountStars(pattern) > 1 then Rejected
    else if '*' !in pattern then Ok(Matcher(BasenameExact, mode, root, Some(pattern), None))
    else
      var prefix := BeforeStar(pattern);
      var suffix := pattern[|prefix| + 1..];
      if prefix == "" then Ok(Matcher(BasenameSuffix, mode, root, None, Some(suffix)))
      else Ok(Matcher(BasenamePrefixSuffix, mode, root, Some(prefix), Some(suffix)))
  }

  function DevicePatterns(patterns: seq<string>, root: Option<string>, mode: Mode): (r: Checked<seq<Matcher>>)
    ensures r.Ok? && (root.Some? ==> root.value != "" && '/' !in root.value) ==> forall m :: m in r.value ==> WellFormed(m)
  {
    if patterns == [] then Ok([])
    else
      var head, tail := DevicePattern(patterns[0], root, mode), DevicePatterns(patterns[1..], root, mode);
      if head.Rejected? || tail.Rejected? then Rejected else Ok([head.value] + tail.value)
  }

  // ---------------------------------------------------------------- patterns and globs

  /** fnmatch for patterns without character classes, which the layout grammar rejects. */
  predicate Glob(pattern: string, s: string)
    decreases |pattern| + |s|
  {
    if pattern == "" then s == ""
    else if pattern[0] == '*' then Glob(pattern[1..], s) || (s != "" && Glob(pattern, s[1..]))
    else s != "" && (pattern[0] == '?' || pattern[0] == s[0]) && Glob(pattern[1..], s[1..])
  }

  predicate Literal(s: string) { '*' !in s && '?' !in s }

  lemma {:induction false} LiteralGlob(pattern: string, s: string)
    requires Literal(pattern)
    ensures Glob(pattern, s) <==> s == pattern
  {
    if pattern != "" {
      assert pattern[0] in pattern && pattern == [pattern[0]] + pattern[1..];
      if s != "" {
        assert s == [s[0]] + s[1..];
        LiteralGlob(pattern[1..], s[1..]);
      }
    }
  }

  lemma {:induction false} StarGlob(suffix: string, s: string)
    requires Literal(suffix)
    ensures Glob("*" + suffix, s) <==> EndsWith(s, suffix)
    decreases |s|
  {
    assert ("*" + suffix)[1..] == suffix;
    LiteralGlob(suffix, s);
    if s != "" {
      StarGlob(suffix, s[1..]);
      assert |suffix| < |s| ==> s[|s| - |suffix|..] == s[1..][|s[1..]| - |suffix|..];
    }
  }

  lemma NoPrefix(s: string)
    ensures StartsWith(s, "")
  {
  }

  lemma LongEnough(suffix: string, s: string)
    ensures EndsWith(s, suffix) ==> |s| >= |suffix|
  {
  }

  lemma AffixesOfTail(prefix: string, suffix: string, s: string)
    requires prefix != "" && s != ""
    ensures StartsWith(s, prefix) <==> s[0] == prefix[0] && StartsWith(s[1..], prefix[1..])
    ensures |suffix| < |s| ==> (EndsWith(s, suffix) <==> EndsWith(s[1..], suffix))
  {
    assert prefix == [prefix[0]] + prefix[1..] && s == [s[0]] + s[1..];
    assert |suffix| < |s| ==> s[|s| - |suffix|..] == s[1..][|s[1..]| - |suffix|..];
  }

  lemma {:induction false} AffixGlob(prefix: string, suffix: string, s: string)
    requires Literal(prefix) && Literal(suffix)
    ensures Glob(prefix + "*" + suffix, s) <==> |s| >= |prefix| + |suffix| && StartsWith(s, prefix) && EndsWith(s, suffix)
    decreases |prefix|
  {
    hide StartsWith, EndsWith;
    var pattern := prefix + "*" + suffix;
    if prefix == "" {
      NoPrefix(s);
      LongEnough(suffix, s);
      assert pattern == "*" + suffix;
      StarGlob(suffix, s);
    } else {
      assert pattern[0] == prefix[0] && prefix[0] in prefix && pattern[1..] == prefix[1..] + "*" + suffix;
      if s != "" {
        AffixGlob(prefix[1..], suffix, s[1..]);
        AffixesOfTail(prefix, suffix, s);
      }
    }
  }

  lemma {:induction false} NoStars(s: string)
    ensures CountStars(s) == 0 <==> '*' !in s
  {
    if s != "" {
      NoStars(s[1..]);
      assert s == [s[0]] + s[1..];
    }
  }

  lemma {:induction false} OneStar(s: string)
    requires '*' in s && CountStars(s) <= 1
    ensures '*' !in BeforeStar(s) && '*' !in s[|BeforeStar(s)| + 1..]
  {
    if s[0] == '*' {
      NoStars(s[1..]);
    } else {
      assert s == [s[0]] + s[1..];
      OneStar(s[1..]);
      assert s[|BeforeStar(s)| + 1..] == s[1..][|BeforeStar(s[1..])| + 1..];
    }
  }

  /** Both affixes match only because they overlap in the name. */
  predicate AffixesCollide(m: Matcher, base: string) {
    BaseMatches(m, base) && |base| < |OrEmpty(m.value)| + |OrEmpty(m.suffix)|
  }

  /**
   Staging selects names by glob, the device by prefix and suffix. The two agree on
   a name exactly unless the matcher's affixes collide in it; then only the device
   accepts it.
   */
  lemma PatternMeetsGlob(pattern: string, root: Option<string>, mode: Mode, base: string)
    requires DevicePattern(pattern, root, mode).Ok?
    ensures var m := DevicePattern(pattern, root, mode).value;
            && (BaseMatches(m, base) <==> Glob(pattern, base) || AffixesCollide(m, base))
            && !(Glob(pattern, base) && AffixesCollide(m, base))
            && (AffixesCollide(m, base) ==> m.kind == BasenamePrefixSuffix)
  {
    var m := DevicePattern(pattern, root, mode).value;
    if '*' !in pattern {
      LiteralGlob(pattern, base);
    } else {
      var prefix := BeforeStar(pattern);
      var suffix := pattern[|prefix| + 1..];
      OneStar(pattern);
      assert pattern == prefix + "*" + suffix;
      AffixGlob(prefix, suffix, base);
    }
  }

  /** The two do differ: the device takes the name aba under the pattern ab*ba. */
  lemma ShortNameIsTaken()
    ensures var m := Matcher(BasenamePrefixSuffix, Replace, None, Some("ab"), Some("ba"));
            DevicePattern("ab*ba", None, Replace) == Ok(m) && BaseMatches(m, "aba") && !Glob("ab*ba", "aba")
  {
    var p := "ab*ba";
    assert p[1..] == "b*ba" && p[2..] == "*ba" && p[3..] == "ba" && p[4..] == "a" && p[5..] == "";
    assert p[1..][1..] == p[2..] && p[2..][1..] == p[3..] && p[3..][1..] == p[4..] && p[4..][1..] == p[5..];
    assert CountStars(p[4..]) == 0 && CountStars(p[3..]) == 0;
    assert CountStars(p[2..]) == 1 && CountStars(p[1..]) == 1;
    assert BeforeStar(p[2..]) == "" && BeforeStar(p[1..]) == "b" && BeforeStar(p) == "ab";
    assert "aba"[1..] == "ba";
    PatternMeetsGlob(p, None, Replace, "aba");
  }

  lemma {:induction false} TopHasNoSlash(path: string)
    ensures '/' !in Top(path) && (path != "" && path[0] != '/' ==> Top(path) != "")
  {
    if path != "" && path[0] != '/' {
      TopHasNoSlash(path[1..]);
    }
  }

  /** _device_matcher for a loaded rule, whose target is a relative path. */
  function DeviceMatchers(rule: LayoutRule): (r: Checked<seq<Matcher>>)
    requires rule.target != "" && rule.target[0] != '/'
    ensures r.Ok? ==> forall m :: m in r.value ==> WellFormed(m)
  {
    TopHasNoSlash(rule.target);
    if rule.shape.TreeRule? then
      var root := Some(Top(rule.target));
      if rule.includes == [] then Ok([Matcher(TopRoot, rule.mode, root, None, None)])
      else DevicePatterns(rule.includes, root, rule.mode)
    else if StartsWith(rule.target, "**/") then DevicePatterns([rule.target[3..]], None, rule.mode)
    else if '*' in rule.target || '?' in rule.target then DevicePatterns([rule.target], None, rule.mode)
    else Ok([Matcher(ExactPath, rule.mode, None, Some(rule.target), None)])
  }

  /** Some pattern's matcher accepts the base name. */
  predicate SomePattern(patterns: seq<string>, root: Option<string>, mode: Mode, base: string) {
    exists i :: 0 <= i < |patterns|
                && DevicePattern(patterns[i], root, mode).Ok? && BaseMatches(DevicePattern(patterns[i], root, mode).value, base)
  }

  lemma PatternMatchesPath(pattern: string, root: Option<string>, mode: Mode, path: string)
    requires DevicePattern(pattern, root, mode).Ok?
    ensures var m := DevicePattern(pattern, root, mode).value;
            Matches(m, path) <==> (root.Some? ==> Top(path) == root.value) && BaseMatches(m, Base(path))
  {
  }

  lemma {:induction false} PatternsAccept(patterns: seq<string>, root: Option<string>, mode: Mode, path: string)
    requires DevicePatterns(patterns, root, mode).Ok?
    ensures (exists m :: m in DevicePatterns(patterns, root, mode).value && Matches(m, path)) <==>
            (root.Some? ==> Top(path) == root.value) && SomePattern(patterns, root, mode, Base(path))
  {
    hide DevicePattern, Matches, BaseMatches, Top, Base;
    if patterns != [] {
      PatternsAccept(patterns[1..], root, mode, path);
      PatternMatchesPath(patterns[0], root, mode, path);
      SomePatternOf(patterns, root, mode, Base(path));
    }
  }

  lemma SomePatternOf(patterns: seq<string>, root: Option<string>, mode: Mode, base: string)
    requires patterns != [] && DevicePattern(patterns[0], root, mode).Ok?
    ensures SomePattern(patterns, root, mode, base) <==>
            BaseMatches(DevicePattern(patterns[0], root, mode).value, base) || SomePattern(patterns[1..], root, mode, base)
  {
    hide DevicePattern, BaseMatches;
    assert patterns == [patterns[0]] + patterns[1..];
    if SomePattern(patterns[1..], root, mode, base) {
      var i :| 0 <= i < |patterns[1..]| && DevicePattern(patterns[1..][i], root, mode).Ok?
               && BaseMatches(DevicePattern(patterns[1..][i], root, mode).value, base);
      assert patterns[i + 1] == patterns[1..][i];
    }
    if SomePattern(patterns, root, mode, base) {
      var i :| 0 <= i < |patterns| && DevicePattern(patterns[i], root, mode).Ok?
               && BaseMatches(DevicePattern(patterns[i], root, mode).value, base);
      assert i > 0 ==> patterns[1..][i - 1] == patterns[i];
    }
  }

  /** The paths a rule is meant for on the device, by top directory and base name. */
  predicate RuleTakes(rule: LayoutRule, path: string) {
    if rule.shape.TreeRule? then
      Top(path) == Top(rule.target)
      && (rule.includes != [] ==> SomePattern(rule.includes, Some(Top(rule.target)), rule.mode, Base(path)))
    else if StartsWith(rule.target, "**/") then SomePattern([rule.target[3..]], None, rule.mode, Base(path))
    else if '*' in rule.target || '?' in rule.target then SomePattern([rule.target], None, rule.mode, Base(path))
    else path == rule.target
  }

  /** A rule's matchers accept exactly the paths it takes. */
  lemma MatchersTakeRule(rule: LayoutRule, path: string)
    requires rule.target != "" && rule.target[0] != '/' && DeviceMatchers(rule).Ok?
    ensures (exists m :: m in DeviceMatchers(rule).value && Matches(m, path)) <==> RuleTakes(rule, path)
  {
    hide DevicePatterns, SomePattern, BaseMatches, Top, Base;
    if rule.shape.TreeRule? {
      var root := Some(Top(rule.target));
      if rule.includes == [] {
        var m := Matcher(TopRoot, rule.mode, root, None, None);
        assert m in DeviceMatchers(rule).value;
      } else {
        PatternsAccept(rule.includes, root, rule.mode, path);
      }
    } else if StartsWith(rule.target, "**/") {
      PatternsAccept([rule.target[3..]], None, rule.mode, path);
    } else if '*' in rule.target || '?' in rule.target {
      PatternsAccept([rule.target], None, rule.mode, path);
    } else {
      var m := Matcher(ExactPath, rule.mode, None, Some(rule.target), None);
      assert m in DeviceMatchers(rule).value;
    }
  }

  predicate Loaded(rules: seq<LayoutRule>) {
    forall i :: 0 <= i < |rules| ==> rules[i].target != "" && rules[i].target[0] != '/'
  }

  function Scopes(ms: seq<Matcher>, scope: Scope): (r: seq<Entry>)
    ensures |r| == |ms| && forall i :: 0 <= i < |r| ==> r[i] == Entry(ms[i], scope)
  {
    if ms == [] then [] else [Entry(ms[0], scope)] + Scopes(ms[1..], scope)
  }

  /** The matchers of all file and tree rules that are not kernels, in rule order. */
  function Expand(rules: seq<LayoutRule>): (r: Checked<seq<Entry>>)
    requires Loaded(rules)
    ensures r.Ok? ==> forall e :: e in r.value ==> WellFormed(e.matcher)
  {
    if rules == [] then Ok([])
    else
      var tail := Expand(rules[1..]);
      if rules[0].shape.DirectoryRule? || rules[0].mode == Kernel then tail
      else
        var head := DeviceMatchers(rules[0]);
        if head.Rejected? || tail.Rejected? then Rejected else Ok(Scopes(head.value, rules[0].scope) + tail.value)
  }

  /** The dictionaries device_projection_document fills. */
  datatype Inventory = Inventory(matchers: map<Key, Matcher>, boards: map<Key, set<Board>>, order: seq<Key>)

  ghost predicate Indexed(inv: Inventory) {
    && inv.matchers.Keys == inv.boards.Keys
    && (forall k :: k in inv.order <==> k in inv.matchers)
    && (forall i, j :: 0 <= i < j < |inv.order| ==> inv.order[i] != inv.order[j])
  }

  /** The matcher dictionary holds exactly the matchers of the first n entries. */
  ghost predicate Holds(inv: Inventory, entries: seq<Entry>, n: nat)
    requires n <= |entries|
  {
    && (forall k :: k in inv.matchers ==>
          KeyOf(inv.matchers[k]) == k && exists i :: 0 <= i < n && entries[i].matcher == inv.matchers[k])
    && (forall i :: 0 <= i < n ==>
          var k := KeyOf(entries[i].matcher); k in inv.matchers && inv.matchers[k].mode == entries[i].matcher.mode)
  }

  /** ... and the board dictionary exactly their boards. */
  ghost predicate Scoped(inv: Inventory, entries: seq<Entry>, n: nat)
    requires n <= |entries|
  {
    && (forall i :: 0 <= i < n ==>
          var k := KeyOf(entries[i].matcher); k in inv.boards && BoardsOf(entries[i].scope) <= inv.boards[k])
    && (forall k, b :: k in inv.boards && b in inv.boards[k] ==>
          exists i :: 0 <= i < n && KeyOf(entries[i].matcher) == k && b in BoardsOf(entries[i].scope))
  }

  ghost predicate Describes(inv: Inventory, entries: seq<Entry>) {
    Indexed(inv) && Holds(inv, entries, |entries|) && Scoped(inv, entries, |entries|)
  }

  /** Two of the first n entries claim one matcher with different modes. */
  ghost predicate Conflicting(entries: seq<Entry>, n: nat)
    requires n <= |entries|
  {
    exists i, j :: 0 <= i < j < n && KeyOf(entries[i].matcher) == KeyOf(entries[j].matcher)
                   && entries[i].matcher.mode != entries[j].matcher.mode
  }

  lemma HoldsMore(inv: Inventory, entries: seq<Entry>, n: nat)
    requires n < |entries| && Holds(inv, entries, n)
    requires var k := KeyOf(entries[n].matcher); k in inv.matchers ==> inv.matchers[k].mode == entries[n].matcher.mode
    ensures Holds(Added(inv, entries[n]), entries, n + 1)
  {
    var e, inv' := entries[n], Added(inv, entries[n]);
    forall k | k in inv'.matchers
      ensures KeyOf(inv'.matchers[k]) == k && exists i :: 0 <= i < n + 1 && entries[i].matcher == inv'.matchers[k]
    {
      if k == KeyOf(e.matcher) {
        assert entries[n].matcher == inv'.matchers[k];
      }
    }
  }

  lemma ScopedMore(inv: Inventory, entries: seq<Entry>, n: nat)
    requires n < |entries| && Scoped(inv, entries, n)
    ensures Scoped(Added(inv, entries[n]), entries, n + 1)
  {
    var e, inv' := entries[n], Added(inv, entries[n]);
    forall k, b | k in inv'.boards && b in inv'.boards[k]
      ensures exists i :: 0 <= i < n + 1 && KeyOf(entries[i].matcher) == k && b in BoardsOf(entries[i].scope)
    {
      if k == KeyOf(e.matcher) && b in BoardsOf(e.scope) {
        assert KeyOf(entries[n].matcher) == k;
      } else {
        assert k in inv.boards && b in inv.boards[k];
      }
    }
  }

  /** The dictionaries after one more matcher. */
  function Added(inv: Inventory, e: Entry): Inventory {
    var k := KeyOf(e.matcher);
    Inventory(
      inv.matchers[k := e.matcher],
      inv.boards[k := (if k in inv.boards then inv.boards[k] else {}) + BoardsOf(e.scope)],
      if k in inv.matchers then inv.order else inv.order + [k])
  }

  lemma HeldAgrees(inv: Inventory, entries: seq<Entry>)
    requires Holds(inv, entries, |entries|)
    ensures !Conflicting(entries, |entries|)
  {
  }

  lemma ConflictFound(inv: Inventory, entries: seq<Entry>, n: nat)
    requires n < |entries| && Holds(inv, entries, n)
    requires var k := KeyOf(entries[n].matcher); k in inv.matchers && inv.matchers[k].mode != entries[n].matcher.mode
    ensures Conflicting(entries, |entries|)
  {
    var k := KeyOf(entries[n].matcher);
    var i :| 0 <= i < n && entries[i].matcher == inv.matchers[k];
    assert KeyOf(entries[i].matcher) == KeyOf(entries[n].matcher);
  }

  lemma IndexedMore(inv: Inventory, e: Entry)
    requires Indexed(inv)
    ensures Indexed(Added(inv, e))
  {
  }

  lemma EmptyInventory(entries: seq<Entry>)
    ensures var inv := Inventory(map[], map[], []); Indexed(inv) && Holds(inv, entries, 0) && Scoped(inv, entries, 0)
  {
  }

  /** The collecting loop of device_projection_document. */
  method Collect(entries: seq<Entry>) returns (r: Checked<Inventory>)
    ensures r.Rejected? <==> Conflicting(entries, |entries|)
    ensures r.Ok? ==> Describes(r.value, entries)
  {
    hide Conflicting, Indexed, Holds, Scoped, KeyOf, Added;
    var inv := Inventory(map[], map[], []);
    EmptyInventory(entries);
    for n := 0 to |entries|
      invariant Indexed(inv) && Holds(inv, entries, n) && Scoped(inv, entries, n)
    {
      var e := entries[n];
      var k := KeyOf(e.matcher);
      if k in inv.matchers && inv.matchers[k].mode != e.matcher.mode {
        ConflictFound(inv, entries, n);
        return Rejected;
      }
      IndexedMore(inv, e);
      HoldsMore(inv, entries, n);
      ScopedMore(inv, entries, n);
      inv := Added(inv, e);
    }
    HeldAgrees(inv, entries);
    return Ok(inv);
  }

  function Values(inv: Inventory, order: seq<Key>): (v: seq<Matcher>)
    requires forall k :: k in order ==> k in inv.matchers
    ensures |v| == |order| && forall i :: 0 <= i < |order| ==> v[i] == inv.matchers[order[i]]
  {
    if order == [] then [] else [inv.matchers[order[0]]] + Values(inv, order[1..])
  }

  /** Two overlapping patterns of different modes. */
  predicate Rivals(a: Matcher, b: Matcher) {
    a.kind != ExactPath && b.kind != ExactPath && a.mode != b.mode && Overlap(a, b)
  }

  /** The pair a scope validation objects to: a winner that is missing on a loser's board. */
  predicate Leaks(inv: Inventory, a: Matcher, b: Matcher)
    requires KeyOf(a) in inv.boards && KeyOf(b) in inv.boards
  {
    && Rivals(a, b)
    && var (winner, loser) := if Before(b, a) then (b, a) else (a, b);
       !(inv.boards[KeyOf(winner)] >= inv.boards[KeyOf(loser)])
  }

  ghost predicate ScopesSafe(inv: Inventory, values: seq<Matcher>)
    requires forall m :: m in values ==> KeyOf(m) in inv.boards
  {
    forall i, j :: 0 <= i < j < |values| ==> !Leaks(inv, values[i], values[j])
  }

  /** _validate_device_matcher_scopes: every later matcher against every earlier one. */
  method ValidateScopes(inv: Inventory, values: seq<Matcher>) returns (ok: bool)
    requires forall m :: m in values ==> KeyOf(m) in inv.boards
    ensures ok <==> ScopesSafe(inv, values)
  {
    for i := 0 to |values|
      invariant forall i', j :: 0 <= i' < i && i' < j < |values| ==> !Leaks(inv, values[i'], values[j])
    {
      if values[i].kind != ExactPath {
        for j := i + 1 to |values|
          invariant forall j' :: i < j' < j ==> !Leaks(inv, values[i], values[j'])
        {
          if Leaks(inv, values[i], values[j]) { return false; }
        }
      }
    }
    return true;
  }

  /** Every key in the order has its matcher and its boards. */
  ghost predicate Listed(inv: Inventory) {
    && (forall k :: k in inv.order ==> k in inv.matchers && k in inv.boards && KeyOf(inv.matchers[k]) == k)
    && forall m :: m in Values(inv, inv.order) ==> KeyOf(m) in inv.boards
  }

  lemma DescribedIsListed(inv: Inventory, entries: seq<Entry>)
    requires Describes(inv, entries)
    ensures Listed(inv)
  {
    hide KeyOf, Scoped;
  }

  ghost predicate AllWellFormed(entries: seq<Entry>) {
    forall e :: e in entries ==> WellFormed(e.matcher)
  }

  /** A rule with this key applies to the board. */
  ghost predicate OnBoard(entries: seq<Entry>, k: Key, b: Board) {
    exists i :: 0 <= i < |entries| && KeyOf(entries[i].matcher) == k && b in BoardsOf(entries[i].scope)
  }

  /** Some board has a rule with one key but none with the other. */
  ghost predicate Missing(entries: seq<Entry>, winner: Key, loser: Key) {
    exists b :: OnBoard(entries, loser, b) && !OnBoard(entries, winner, b)
  }

  /** The winner of two rivals is missing on a board that the loser is on. */
  ghost predicate LeakyPair(entries: seq<Entry>, winner: Matcher, loser: Matcher) {
    Rivals(winner, loser) && Before(winner, loser) && Missing(entries, KeyOf(winner), KeyOf(loser))
  }

  ghost predicate Leaky(entries: seq<Entry>) {
    exists e, f :: e in entries && f in entries && LeakyPair(entries, e.matcher, f.matcher)
  }

  lemma BoardsAreScopes(entries: seq<Entry>, inv: Inventory, k: Key, b: Board)
    requires Describes(inv, entries) && k in inv.boards
    ensures b in inv.boards[k] <==> OnBoard(entries, k, b)
  {
    hide KeyOf, BoardsOf, Holds, Indexed;
  }

  lemma MissingIsScopes(entries: seq<Entry>, inv: Inventory, winner: Key, loser: Key)
    requires Describes(inv, entries) && winner in inv.boards && loser in inv.boards
    ensures !(inv.boards[winner] >= inv.boards[loser]) <==> Missing(entries, winner, loser)
  {
    hide Describes, OnBoard;
    forall b: Board
      ensures b in inv.boards[winner] <==> OnBoard(entries, winner, b)
      ensures b in inv.boards[loser] <==> OnBoard(entries, loser, b)
    {
      BoardsAreScopes(entries, inv, winner, b);
      BoardsAreScopes(entries, inv, loser, b);
    }
  }

  lemma RivalsAreMutual(a: Matcher, b: Matcher)
    requires WellFormed(a) && WellFormed(b)
    ensures Rivals(a, b) <==> Rivals(b, a)
  {
    hide Overlap, Matches, WellFormed;
    OverlapIsExact(a, b);
    OverlapIsExact(b, a);
  }

  lemma SameKeySameRivals(a: Matcher, b: Matcher, c: Matcher, d: Matcher)
    requires WellFormed(a) && WellFormed(b) && WellFormed(c) && WellFormed(d) && a.mode == c.mode && b.mode == d.mode
    requires KeyOf(a) == KeyOf(c) && KeyOf(b) == KeyOf(d) && Rivals(a, b)
    ensures Rivals(c, d)
  {
    hide Overlap, Matches, WellFormed;
    OverlapIsExact(a, b);
    OverlapIsExact(c, d);
    var path :| Matches(a, path) && Matches(b, path);
    SameKeySameMatches(a, c, path);
    SameKeySameMatches(b, d, path);
  }

  /** An objection is a leaking pair, with its winner in front. */
  lemma LeaksExact(entries: seq<Entry>, inv: Inventory, a: Matcher, b: Matcher)
    requires Describes(inv, entries) && WellFormed(a) && WellFormed(b) && KeyOf(a) != KeyOf(b)
    requires KeyOf(a) in inv.boards && KeyOf(b) in inv.boards
    ensures Leaks(inv, a, b) <==> LeakyPair(entries, a, b) || LeakyPair(entries, b, a)
  {
    hide Rivals, WellFormed, CompareKeys, Describes, Missing;
    KeyOrder(KeyOf(a), KeyOf(b));
    RivalsAreMutual(a, b);
    MissingIsScopes(entries, inv, KeyOf(a), KeyOf(b));
    MissingIsScopes(entries, inv, KeyOf(b), KeyOf(a));
  }

  /** The listed matcher under an entry's key. */
  lemma EntryIsHeld(entries: seq<Entry>, inv: Inventory, e: Entry) returns (m: Matcher)
    requires Describes(inv, entries) && e in entries
    ensures KeyOf(e.matcher) in inv.matchers && KeyOf(e.matcher) in inv.boards && m == inv.matchers[KeyOf(e.matcher)]
    ensures KeyOf(m) == KeyOf(e.matcher) && m.mode == e.matcher.mode && exists f :: f in entries && f.matcher == m
  {
    hide KeyOf, Scoped;
    var i :| 0 <= i < |entries| && entries[i] == e;
    m := inv.matchers[KeyOf(entries[i].matcher)];
    HeldEntries(entries, inv, m);
  }

  /** The dictionary has this matcher under its key. */
  predicate Stored(inv: Inventory, m: Matcher) {
    KeyOf(m) in inv.matchers && inv.matchers[KeyOf(m)] == m
  }

  lemma ListedPairLeaks(entries: seq<Entry>, inv: Inventory, e: Entry, f: Entry) returns (w: Matcher, l: Matcher)
    requires AllWellFormed(entries) && Describes(inv, entries) && e in entries && f in entries
    requires LeakyPair(entries, e.matcher, f.matcher)
    ensures Stored(inv, w) && Stored(inv, l)
    ensures KeyOf(w) != KeyOf(l) && WellFormed(w) && WellFormed(l) && LeakyPair(entries, w, l)
  {
    w := EntryIsHeld(entries, inv, e);
    l := EntryIsHeld(entries, inv, f);
    hide WellFormed, CompareKeys, Describes, Missing, KeyOf, Rivals;
    SameKeySameRivals(e.matcher, f.matcher, w, l);
    KeyOrder(KeyOf(w), KeyOf(l));
  }

  lemma PlaceOf(inv: Inventory, m: Matcher) returns (p: nat)
    requires Indexed(inv) && Listed(inv) && Stored(inv, m)
    ensures p < |inv.order| && inv.order[p] == KeyOf(m) && Values(inv, inv.order)[p] == m
  {
    hide KeyOf;
    p :| 0 <= p < |inv.order| && inv.order[p] == KeyOf(m);
  }

  lemma ListedAt(entries: seq<Entry>, inv: Inventory, i: nat)
    requires AllWellFormed(entries) && Describes(inv, entries) && Listed(inv) && i < |inv.order|
    ensures var m := Values(inv, inv.order)[i];
            KeyOf(m) == inv.order[i] && KeyOf(m) in inv.boards && WellFormed(m) && exists e :: e in entries && e.matcher == m
  {
    hide KeyOf, Scoped, WellFormed, Values;
    var m := Values(inv, inv.order)[i];
    assert inv.order[i] in inv.order;
    HeldEntries(entries, inv, m);
  }

  lemma LeakShows(entries: seq<Entry>, inv: Inventory, a: Matcher, b: Matcher)
    requires Describes(inv, entries) && WellFormed(a) && WellFormed(b) && KeyOf(a) != KeyOf(b)
    requires KeyOf(a) in inv.boards && KeyOf(b) in inv.boards && Leaks(inv, a, b)
    requires (exists e :: e in entries && e.matcher == a) && exists e :: e in entries && e.matcher == b
    ensures Leaky(entries)
  {
    hide Leaks, KeyOf, Describes, LeakyPair, WellFormed;
    LeaksExact(entries, inv, a, b);
  }

  lemma OrderDistinct(entries: seq<Entry>, inv: Inventory, i: nat, j: nat)
    requires Describes(inv, entries) && i < j < |inv.order|
    ensures inv.order[i] != inv.order[j]
  {
    hide Holds, Scoped;
  }

  lemma UnsafeShowsLeak(entries: seq<Entry>, inv: Inventory)
    requires AllWellFormed(entries) && Describes(inv, entries) && Listed(inv) && !ScopesSafe(inv, Values(inv, inv.order))
    ensures Leaky(entries)
  {
    hide Leaks, KeyOf, Describes, AllWellFormed, Values, WellFormed, Indexed, Leaky;
    var values := Values(inv, inv.order);
    var i, j :| 0 <= i < j < |values| && Leaks(inv, values[i], values[j]);
    ListedAt(entries, inv, i);
    ListedAt(entries, inv, j);
    OrderDistinct(entries, inv, i, j);
    LeakShows(entries, inv, values[i], values[j]);
  }

  lemma UnsafeAt(inv: Inventory, values: seq<Matcher>, p: nat, q: nat)
    requires (forall m :: m in values ==> KeyOf(m) in inv.boards) && p < |values| && q < |values| && p != q
    requires Leaks(inv, values[p], values[q]) && Leaks(inv, values[q], values[p])
    ensures !ScopesSafe(inv, values)
  {
    hide Leaks, KeyOf;
  }

  lemma LeakShowsUnsafe(entries: seq<Entry>, inv: Inventory, w: Matcher, l: Matcher)
    requires AllWellFormed(entries) && Describes(inv, entries) && Listed(inv)
    requires Stored(inv, w) && Stored(inv, l) && KeyOf(w) != KeyOf(l) && LeakyPair(entries, w, l)
    ensures !ScopesSafe(inv, Values(inv, inv.order))
  {
    assert Indexed(inv);
    hide KeyOf, Describes, LeakyPair, AllWellFormed, Values, WellFormed, ScopesSafe, Leaks, Indexed, Stored;
    var p := PlaceOf(inv, w);
    var q := PlaceOf(inv, l);
    ListedAt(entries, inv, p);
    ListedAt(entries, inv, q);
    LeaksExact(entries, inv, w, l);
    LeaksExact(entries, inv, l, w);
    UnsafeAt(inv, Values(inv, inv.order), p, q);
  }

  /** The scope validation objects to the collected matchers exactly when the rules leak. */
  lemma LeakyExact(entries: seq<Entry>, inv: Inventory)
    requires AllWellFormed(entries) && Describes(inv, entries) && Listed(inv)
    ensures ScopesSafe(inv, Values(inv, inv.order)) <==> !Leaky(entries)
  {
    hide KeyOf, Describes, LeakyPair, AllWellFormed, Values, WellFormed, ScopesSafe, Stored;
    if !ScopesSafe(inv, Values(inv, inv.order)) {
      UnsafeShowsLeak(entries, inv);
    } else if Leaky(entries) {
      var e, f :| e in entries && f in entries && LeakyPair(entries, e.matcher, f.matcher);
      var w, l := ListedPairLeaks(entries, inv, e, f);
      LeakShowsUnsafe(entries, inv, w, l);
    }
  }

  /** An exact path that a broader matcher of the same mode already accepts. */
  predicate Covered(m: Matcher, values: seq<Matcher>) {
    m.kind == ExactPath && exists n :: n in values && n != m && n.mode == m.mode && Matches(n, OrEmpty(m.value))
  }

  function Uncovered(values: seq<Matcher>, all: seq<Matcher>): seq<Matcher> {
    if values == [] then []
    else (if Covered(values[0], all) then [] else [values[0]]) + Uncovered(values[1..], all)
  }

  lemma {:induction false} UncoveredMembers(values: seq<Matcher>, all: seq<Matcher>, m: Matcher)
    ensures m in Uncovered(values, all) <==> m in values && !Covered(m, all)
  {
    if values != [] {
      UncoveredMembers(values[1..], all, m);
    }
  }

  /** device_projection_document: collect, validate, drop covered exact paths, sort. */
  method Project(entries: seq<Entry>) returns (r: Checked<seq<Matcher>>)
    ensures r.Ok? ==> exists inv :: Describes(inv, entries) && Projected(inv, r.value)
    ensures AllWellFormed(entries) ==> (r.Rejected? <==> Conflicting(entries, |entries|) || Leaky(entries))
  {
    hide Conflicting, Leaks, Describes, ScopesSafe, Values, Uncovered, Sort, KeyOf, Leaky, AllWellFormed;
    var collected := Collect(entries);
    if collected.Rejected? { return Rejected; }
    var inv := collected.value;
    DescribedIsListed(inv, entries);
    var values := Values(inv, inv.order);
    var ok := ValidateScopes(inv, values);
    if AllWellFormed(entries) {
      LeakyExact(entries, inv);
    }
    if !ok { return Rejected; }
    assert Describes(inv, entries) && Projected(inv, Sort(Uncovered(values, values)));
    return Ok(Sort(Uncovered(values, values)));
  }

  ghost predicate Projected(inv: Inventory, table: seq<Matcher>) {
    && Listed(inv) && ScopesSafe(inv, Values(inv, inv.order))
    && table == Sort(Uncovered(Values(inv, inv.order), Values(inv, inv.order)))
  }

  // ---------------------------------------------------------------- one table for both boards

  /** The matchers of the rules that apply to one board. */
  function OwnMatchers(entries: seq<Entry>, b: Board): seq<Matcher> {
    if entries == [] then []
    else (if b in BoardsOf(entries[0].scope) then [entries[0].matcher] else []) + OwnMatchers(entries[1..], b)
  }

  lemma {:induction false} OwnMembers(entries: seq<Entry>, b: Board, m: Matcher)
    ensures m in OwnMatchers(entries, b) <==>
            exists i :: 0 <= i < |entries| && entries[i].matcher == m && b in BoardsOf(entries[i].scope)
  {
    if entries != [] {
      OwnMembers(entries[1..], b, m);
      if i :| 0 <= i < |entries| && entries[i].matcher == m && b in BoardsOf(entries[i].scope) {
        assert i > 0 ==> entries[1..][i - 1] == entries[i];
      }
      if i :| 0 <= i < |entries[1..]| && entries[1..][i].matcher == m && b in BoardsOf(entries[1..][i].scope) {
        assert entries[i + 1] == entries[1..][i];
      }
    }
  }

  /** The board's own winner is in the global table, under the same key and mode. */
  lemma OwnIsListed(entries: seq<Entry>, inv: Inventory, b: Board, m: Matcher)
    requires Describes(inv, entries) && m in OwnMatchers(entries, b)
    ensures KeyOf(m) in inv.matchers && inv.matchers[KeyOf(m)].mode == m.mode && b in inv.boards[KeyOf(m)]
  {
    OwnMembers(entries, b, m);
  }

  lemma SameKeySameMatches(a: Matcher, b: Matcher, path: string)
    requires WellFormed(a) && WellFormed(b) && KeyOf(a) == KeyOf(b) && a.kind != ExactPath
    ensures Matches(a, path) <==> Matches(b, path)
  {
  }

  lemma ListedValue(inv: Inventory, k: Key)
    requires Indexed(inv) && k in inv.matchers
    ensures inv.matchers[k] in Values(inv, inv.order)
  {
    var i :| 0 <= i < |inv.order| && inv.order[i] == k;
    assert Values(inv, inv.order)[i] == inv.matchers[k];
  }

  lemma ValueIsHeld(inv: Inventory, m: Matcher)
    requires Indexed(inv) && (forall k :: k in inv.matchers ==> KeyOf(inv.matchers[k]) == k)
    requires m in Values(inv, inv.order)
    ensures KeyOf(m) in inv.matchers && inv.matchers[KeyOf(m)] == m
  {
    var i :| 0 <= i < |inv.order| && Values(inv, inv.order)[i] == m;
  }

  lemma SafePair(inv: Inventory, values: seq<Matcher>, a: Matcher, b: Matcher)
    requires (forall m :: m in values ==> KeyOf(m) in inv.boards) && ScopesSafe(inv, values)
    requires a in values && b in values && a != b
    ensures !Leaks(inv, a, b) || !Leaks(inv, b, a)
  {
    hide Leaks, KeyOf;
    var i :| 0 <= i < |values| && values[i] == a;
    var j :| 0 <= j < |values| && values[j] == b;
    assert i < j ==> !Leaks(inv, values[i], values[j]);
    assert j < i ==> !Leaks(inv, values[j], values[i]);
  }

  /** Two listed matchers of different modes that meet on a path: the first covers the second's boards. */
  lemma WinnerCoversBoards(inv: Inventory, values: seq<Matcher>, a: Matcher, b: Matcher, path: string)
    requires (forall m :: m in values ==> KeyOf(m) in inv.boards) && ScopesSafe(inv, values)
    requires a in values && b in values
    requires WellFormed(a) && WellFormed(b) && Matches(a, path) && Matches(b, path)
    requires a.kind != ExactPath && b.kind != ExactPath && a.mode != b.mode && Before(a, b)
    ensures inv.boards[KeyOf(a)] >= inv.boards[KeyOf(b)]
  {
    hide Overlap, Matches, WellFormed, CompareKeys, ScopesSafe;
    OverlapIsExact(a, b);
    OverlapIsExact(b, a);
    KeyOrder(KeyOf(a), KeyOf(b));
    SafePair(inv, values, a, b);
  }

  /**
   One table for both boards: whenever scope validation accepts, a path that is no
   exact target is classified by the global first-match table as by first match over
   the rules of any board that has a matching rule.
   */
  lemma TableServesBoard(entries: seq<Entry>, inv: Inventory, table: seq<Matcher>, b: Board, path: string)
    requires forall e :: e in entries ==> WellFormed(e.matcher)
    requires Describes(inv, entries) && Projected(inv, table)
    requires forall e :: e in entries && e.matcher.kind == ExactPath ==> e.matcher.value != Some(path)
    requires exists m :: m in OwnMatchers(entries, b) && Matches(m, path)
    ensures FirstMode(table, path) == FirstMode(Sort(OwnMatchers(entries, b)), path) != None
  {
    var values := Values(inv, inv.order);
    var own := SortedFirst(OwnMatchers(entries, b), path);
    OwnMembers(entries, b, own);
    OwnIsListed(entries, inv, b, own);
    var listed := inv.matchers[KeyOf(own)];
    ListedValue(inv, KeyOf(own));
    HeldEntries(entries, inv, listed);
    SameKeySameMatches(own, listed, path);
    UncoveredMembers(values, values, listed);
    var winner := SortedFirst(Uncovered(values, values), path);
    UncoveredMembers(values, values, winner);
    ValueIsHeld(inv, winner);
    HeldEntries(entries, inv, winner);
    KeyOrder(KeyOf(winner), KeyOf(listed));
    if winner.mode != listed.mode {
      ModesAgree(entries, inv, b, path, own, listed, winner);
    }
  }

  lemma HeldEntries(entries: seq<Entry>, inv: Inventory, m: Matcher)
    requires Describes(inv, entries) && KeyOf(m) in inv.matchers && inv.matchers[KeyOf(m)] == m
    ensures exists e :: e in entries && e.matcher == m
  {
    var i :| 0 <= i < |entries| && entries[i].matcher == m;
    assert entries[i] in entries;
  }

  /** A global winner of another mode would also be the board's winner. */
  lemma ModesAgree(entries: seq<Entry>, inv: Inventory, b: Board, path: string, own: Matcher, listed: Matcher, winner: Matcher)
    requires forall e :: e in entries ==> WellFormed(e.matcher)
    requires Describes(inv, entries) && Wins(own, OwnMatchers(entries, b), path)
    requires var values := Values(inv, inv.order);
             && listed in values && winner in values
             && (forall m :: m in values ==> KeyOf(m) in inv.boards) && ScopesSafe(inv, values)
    requires WellFormed(listed) && WellFormed(winner) && listed.kind != ExactPath && winner.kind != ExactPath
    requires KeyOf(listed) == KeyOf(own) && KeyOf(own) in inv.boards && b in inv.boards[KeyOf(own)]
    requires Matches(listed, path) && Matches(winner, path) && !Before(listed, winner)
    ensures winner.mode == listed.mode
  {
    hide Matches, WellFormed, CompareKeys, OwnMatchers, Values, ScopesSafe, Leaks;
    if winner.mode != listed.mode {
      ValueIsHeld(inv, winner);
      ValueIsHeld(inv, listed);
      KeyOrder(KeyOf(winner), KeyOf(listed));
      WinnerCoversBoards(inv, Values(inv, inv.order), winner, listed, path);
      var i :| 0 <= i < |entries| && KeyOf(entries[i].matcher) == KeyOf(winner) && b in BoardsOf(entries[i].scope);
      var rival := entries[i].matcher;
      assert entries[i] in entries;
      OwnMembers(entries, b, rival);
      SameKeySameMatches(winner, rival, path);
      assert false;
    }
  }

  predicate DistinctKeys(table: seq<Matcher>) {
    forall i, j :: 0 <= i < j < |table| ==> KeyOf(table[i]) != KeyOf(table[j])
  }

  lemma {:induction false} InsertDistinct(m: Matcher, s: seq<Matcher>)
    requires DistinctKeys(s) && forall n :: n in s ==> KeyOf(n) != KeyOf(m)
    ensures DistinctKeys(Insert(Before, m, s))
  {
    if s != [] && Before(s[0], m) {
      InsertDistinct(m, s[1..]);
      InsertElements(m, s[1..]);
      var r := Insert(Before, m, s[1..]);
      forall j | 0 <= j < |r|
        ensures KeyOf(r[j]) != KeyOf(s[0])
      {
        assert r[j] == m || r[j] in s[1..];
      }
    }
  }

  lemma {:induction false} SortDistinct(s: seq<Matcher>)
    requires DistinctKeys(s)
    ensures DistinctKeys(Sort(s))
  {
    if s != [] {
      SortDistinct(s[1..]);
      SortSorts(s[1..]);
      var t := Sort(s[1..]);
      forall n | n in t
        ensures KeyOf(n) != KeyOf(s[0])
      {
        assert n in multiset(t) && n in s[1..];
        var j :| 0 <= j < |s[1..]| && s[1..][j] == n;
        assert s[j + 1] == n;
      }
      InsertDistinct(s[0], t);
    }
  }

  lemma {:induction false} UncoveredDistinct(values: seq<Matcher>, all: seq<Matcher>)
    requires DistinctKeys(values)
    ensures DistinctKeys(Uncovered(values, all))
  {
    if values != [] {
      UncoveredDistinct(values[1..], all);
      var r := Uncovered(values[1..], all);
      forall j | 0 <= j < |r|
        ensures KeyOf(r[j]) != KeyOf(values[0])
      {
        UncoveredMembers(values[1..], all, r[j]);
        var i :| 0 <= i < |values[1..]| && values[1..][i] == r[j];
        assert values[i + 1] == r[j];
      }
    }
  }

  lemma ProjectedInOrder(entries: seq<Entry>, inv: Inventory, table: seq<Matcher>)
    requires Describes(inv, entries) && Projected(inv, table)
    ensures DistinctKeys(table) && Sorted(table)
  {
    var values := Values(inv, inv.order);
    UncoveredDistinct(values, values);
    SortDistinct(Uncovered(values, values));
    SortSorts(Uncovered(values, values));
  }

  lemma SameKeySameMatcher(values: seq<Matcher>, a: Matcher, b: Matcher)
    requires DistinctKeys(values) && a in values && b in values && !Before(a, b) && !Before(b, a)
    ensures a == b
  {
    KeyOrder(KeyOf(a), KeyOf(b));
    var i :| 0 <= i < |values| && values[i] == a;
    var j :| 0 <= j < |values| && values[j] == b;
  }

  /** Dropping covered exact paths changes nothing for any other path. */
  lemma NormalizationKeepsOthers(values: seq<Matcher>, path: string)
    requires DistinctKeys(values)
    requires forall m :: m in values && Covered(m, values) ==> m.value != Some(path)
    ensures FirstMode(Sort(Uncovered(values, values)), path) == FirstMode(Sort(values), path)
  {
    hide FirstMode, Uncovered, Before, Sort, DistinctKeys;
    var kept := Uncovered(values, values);
    forall m
      ensures m in kept <==> m in values && !Covered(m, values)
    {
      UncoveredMembers(values, values, m);
    }
    if exists n :: n in values && Matches(n, path) {
      var m := SortedFirst(values, path);
      assert m in kept;
      var u := SortedFirst(kept, path);
      SameKeySameMatcher(values, m, u);
    } else {
      SortSorts(values);
      SortSorts(kept);
      assert forall n :: n in multiset(values) <==> n in values;
      assert forall n :: n in multiset(kept) <==> n in kept;
      NothingMatches(Sort(values), path);
      NothingMatches(Sort(kept), path);
    }
  }

  /**
   Every pattern of another mode that matches the dropped path comes after some
   pattern of the path's own mode that matches it too.
   */
  predicate Shielded(values: seq<Matcher>, m: Matcher, path: string) {
    forall n :: n in values && n.kind != ExactPath && n.mode != m.mode && Matches(n, path) ==>
      exists k :: k in values && k.kind != ExactPath && k.mode == m.mode && Matches(k, path) && Before(k, n)
  }

  predicate WellFormedAll(values: seq<Matcher>) {
    forall m :: m in values ==> WellFormed(m)
  }

  /** A table has one exact matcher for a path, and it comes before every other that matches. */
  lemma ExactIsAlone(values: seq<Matcher>, m: Matcher, n: Matcher, path: string)
    requires DistinctKeys(values) && WellFormedAll(values) && m in values && n in values
    requires m.kind == ExactPath && m.value == Some(path) && Matches(n, path)
    ensures n.kind == ExactPath ==> n == m
    ensures n.kind != ExactPath ==> Before(m, n)
  {
    assert WellFormed(m) && WellFormed(n);
    if n.kind == ExactPath {
      KeyOrder(KeyOf(m), KeyOf(n));
      SameKeySameMatcher(values, m, n);
    }
  }

  /** Before normalization a listed exact path has its own mode. */
  lemma ExactWins(values: seq<Matcher>, m: Matcher, path: string)
    requires DistinctKeys(values) && WellFormedAll(values) && m in values && m.kind == ExactPath && m.value == Some(path)
    ensures FirstMode(Sort(values), path) == Some(m.mode)
  {
    assert WellFormed(m);
    hide FirstMode, Sort, Before, DistinctKeys, WellFormedAll;
    ExactMatches(m, path);
    var w := SortedFirst(values, path);
    ExactIsAlone(values, m, w, path);
  }

  lemma ExactMatches(m: Matcher, path: string)
    requires m.kind == ExactPath && m.value == Some(path) && (m.root.Some? ==> Top(path) == m.root.value)
    ensures Matches(m, path)
  {
  }

  /** What answers for a dropped path: the first pattern that matches it. */
  lemma DroppedFirst(values: seq<Matcher>, m: Matcher, path: string) returns (u: Matcher)
    requires DistinctKeys(values) && WellFormedAll(values) && m in values && Covered(m, values) && m.value == Some(path)
    ensures u in values && u.kind != ExactPath && Matches(u, path)
    ensures forall n :: n in values && n.kind != ExactPath && Matches(n, path) ==> !Before(n, u)
    ensures FirstMode(Sort(Uncovered(values, values)), path) == Some(u.mode)
  {
    var c :| c in values && c != m && c.mode == m.mode && Matches(c, OrEmpty(m.value));
    hide FirstMode, Sort, Before, DistinctKeys, WellFormedAll, Uncovered, Matches;
    var kept := Uncovered(values, values);
    forall n
      ensures n in kept <==> n in values && !Covered(n, values)
    {
      UncoveredMembers(values, values, n);
    }
    ExactIsAlone(values, m, c, path);
    assert c in kept;
    u := SortedFirst(kept, path);
    ExactIsAlone(values, m, u, path);
  }

  /** A dropped exact path keeps its mode exactly when it is shielded. */
  lemma DroppedKeepsMode(values: seq<Matcher>, m: Matcher, path: string)
    requires DistinctKeys(values) && WellFormedAll(values) && m in values && Covered(m, values) && m.value == Some(path)
    ensures FirstMode(Sort(Uncovered(values, values)), path) == FirstMode(Sort(values), path) <==> Shielded(values, m, path)
  {
    var u := DroppedFirst(values, m, path);
    ExactWins(values, m, path);
    hide FirstMode, Sort, Before, DistinctKeys, WellFormedAll, Uncovered, Matches, Covered;
    if u.mode == m.mode {
      forall n | n in values && n.kind != ExactPath && n.mode != m.mode && Matches(n, path)
        ensures u in values && u.kind != ExactPath && u.mode == m.mode && Matches(u, path) && Before(u, n)
      {
        AfterOther(values, u, n);
      }
    }
  }

  lemma AfterOther(values: seq<Matcher>, u: Matcher, n: Matcher)
    requires DistinctKeys(values) && u in values && n in values && u != n && !Before(n, u)
    ensures Before(u, n)
  {
    if !Before(u, n) {
      SameKeySameMatcher(values, u, n);
    }
  }

  /**
   Normalization, for every path: the table without covered exact paths gives the mode
   of the full table if and only if the path is not a dropped one or is shielded.
   */
  lemma NormalizationExact(values: seq<Matcher>, path: string)
    requires DistinctKeys(values) && WellFormedAll(values)
    ensures FirstMode(Sort(Uncovered(values, values)), path) == FirstMode(Sort(values), path) <==>
            forall m :: m in values && Covered(m, values) && m.value == Some(path) ==> Shielded(values, m, path)
  {
    hide FirstMode, Sort, DistinctKeys, WellFormedAll, Uncovered, Shielded, Covered;
    if exists m :: m in values && Covered(m, values) && m.value == Some(path) {
      var m :| m in values && Covered(m, values) && m.value == Some(path);
      DroppedKeepsMode(values, m, path);
      forall n | n in values && Covered(n, values) && n.value == Some(path)
        ensures n == m
      {
        CoveredIsAlone(values, m, n, path);
      }
    } else {
      NormalizationKeepsOthers(values, path);
    }
  }

  /** The same of the table that a layout is projected to. */
  lemma ProjectionExact(entries: seq<Entry>, inv: Inventory, table: seq<Matcher>, path: string)
    requires AllWellFormed(entries) && Describes(inv, entries) && Projected(inv, table)
    ensures var values := Values(inv, inv.order);
            FirstMode(table, path) == FirstMode(Sort(values), path) <==>
            forall m :: m in values && Covered(m, values) && m.value == Some(path) ==> Shielded(values, m, path)
  {
    assert Indexed(inv);
    ListedDistinct(inv);
    hide Describes, Values, Shielded, Covered, DistinctKeys, FirstMode, Sort, Uncovered, AllWellFormed, WellFormed, KeyOf, ScopesSafe;
    var values := Values(inv, inv.order);
    forall m | m in values
      ensures WellFormed(m)
    {
      var i :| 0 <= i < |values| && values[i] == m;
      ListedAt(entries, inv, i);
    }
    NormalizationExact(values, path);
  }

  lemma CoveredIsAlone(values: seq<Matcher>, m: Matcher, n: Matcher, path: string)
    requires DistinctKeys(values) && WellFormedAll(values) && m in values && n in values
    requires Covered(m, values) && Covered(n, values) && m.value == Some(path) && n.value == Some(path)
    ensures n == m
  {
    assert WellFormed(m) && WellFormed(n);
    ExactMatches(n, path);
    ExactIsAlone(values, m, n, path);
  }

  lemma {:induction false} NothingMatches(table: seq<Matcher>, path: string)
    requires forall n :: n in multiset(table) ==> !Matches(n, path)
    ensures FirstMode(table, path) == None
  {
    if table != [] {
      assert table == [table[0]] + table[1..];
      assert table[0] in multiset(table);
      NothingMatches(table[1..], path);
    }
  }

  const EXACT := Matcher(ExactPath, Keep, None, Some("a/x"), None)
  const BROAD := Matcher(TopRoot, Keep, Some("a"), None, None)
  const NARROW := Matcher(BasenameExact, Replace, None, Some("x"), None)

  const EXAMPLE := [Entry(EXACT, Both), Entry(BROAD, Both), Entry(NARROW, Both)]

  /** Rules for both boards never leak. */
  lemma BothNeverLeaks(entries: seq<Entry>)
    requires forall e :: e in entries ==> e.scope.Both?
    ensures !Leaky(entries)
  {
    hide Rivals, Before, KeyOf;
    forall e, f | e in entries && f in entries
      ensures !LeakyPair(entries, e.matcher, f.matcher)
    {
      var i :| 0 <= i < |entries| && entries[i] == e;
      forall b: Board
        ensures OnBoard(entries, KeyOf(e.matcher), b)
      {
        assert b == Pi4 || b == Pi5;
        assert entries[i].scope.Both?;
      }
    }
  }

  /** The example is a layout the projection accepts. */
  lemma ExampleIsAccepted()
    ensures AllWellFormed(EXAMPLE) && !Conflicting(EXAMPLE, |EXAMPLE|) && !Leaky(EXAMPLE)
  {
    BothNeverLeaks(EXAMPLE);
  }

  ghost predicate FromEntries(entries: seq<Entry>, m: Matcher) {
    exists e :: e in entries && e.matcher == m
  }

  /** Where no two different matchers share a key, all of them are collected. */
  lemma CollectedAll(entries: seq<Entry>, inv: Inventory, m: Matcher)
    requires Describes(inv, entries) && Listed(inv)
    requires forall e, f :: e in entries && f in entries && KeyOf(e.matcher) == KeyOf(f.matcher) ==> e.matcher == f.matcher
    ensures m in Values(inv, inv.order) <==> FromEntries(entries, m)
  {
    assert Indexed(inv) && forall k :: k in inv.matchers ==> KeyOf(inv.matchers[k]) == k;
    hide Values, KeyOf, Describes;
    if m in Values(inv, inv.order) {
      ValueIsHeld(inv, m);
      HeldEntries(entries, inv, m);
    } else if FromEntries(entries, m) {
      var e :| e in entries && e.matcher == m;
      var n := EntryIsHeld(entries, inv, e);
      ListedValue(inv, KeyOf(n));
    }
  }

  lemma ExampleKeys(e: Entry, f: Entry)
    requires e in EXAMPLE && f in EXAMPLE && KeyOf(e.matcher) == KeyOf(f.matcher)
    ensures e.matcher == f.matcher
  {
  }

  lemma ExampleMatcher(m: Matcher)
    ensures FromEntries(EXAMPLE, m) <==> m == EXACT || m == BROAD || m == NARROW
    ensures FromEntries(EXAMPLE, m) ==> WellFormed(m)
  {
    assert EXAMPLE[0] in EXAMPLE && EXAMPLE[1] in EXAMPLE && EXAMPLE[2] in EXAMPLE;
  }

  /** Its collected matchers are the three, in some order. */
  lemma ExampleValues(inv: Inventory)
    requires Describes(inv, EXAMPLE) && Listed(inv)
    ensures var values := Values(inv, inv.order);
            && DistinctKeys(values) && WellFormedAll(values)
            && forall m :: m in values <==> m == EXACT || m == BROAD || m == NARROW
  {
    ListedDistinct(inv);
    forall e, f | e in EXAMPLE && f in EXAMPLE && KeyOf(e.matcher) == KeyOf(f.matcher)
      ensures e.matcher == f.matcher
    {
      ExampleKeys(e, f);
    }
    hide Values, KeyOf, WellFormed, Describes, Listed, DistinctKeys, FromEntries;
    forall m
      ensures m in Values(inv, inv.order) <==> m == EXACT || m == BROAD || m == NARROW
      ensures m in Values(inv, inv.order) ==> WellFormed(m)
    {
      CollectedAll(EXAMPLE, inv, m);
      ExampleMatcher(m);
    }
  }

  lemma ListedDistinct(inv: Inventory)
    requires Indexed(inv) && Listed(inv)
    ensures DistinctKeys(Values(inv, inv.order))
  {
    hide KeyOf;
    var values := Values(inv, inv.order);
    forall i, j | 0 <= i < j < |values|
      ensures KeyOf(values[i]) != KeyOf(values[j])
    {
      assert inv.order[i] in inv.order && inv.order[j] in inv.order;
    }
  }

  /**
   So the projection of an accepted layout can change the mode of an exact path: both
   boards' own rules keep a/x, the table replaces it.
   */
  lemma ProjectionCanChangeMode(inv: Inventory, table: seq<Matcher>)
    requires Describes(inv, EXAMPLE) && Projected(inv, table)
    ensures FirstMode(Sort(Values(inv, inv.order)), "a/x") == Some(Keep) && FirstMode(table, "a/x") == Some(Replace)
  {
    ExampleValues(inv);
    ExampleTable(Values(inv, inv.order));
  }

  lemma ExampleTable(values: seq<Matcher>)
    requires DistinctKeys(values) && WellFormedAll(values)
    requires forall m :: m in values <==> m == EXACT || m == BROAD || m == NARROW
    ensures Covered(EXACT, values) && FirstMode(Sort(values), "a/x") == Some(Keep)
    ensures FirstMode(Sort(Uncovered(values, values)), "a/x") == Some(Replace)
  {
    ExampleMatches();
    hide Sort, FirstMode, Uncovered, DistinctKeys, WellFormedAll, Matches, Before;
    ExactWins(values, EXACT, "a/x");
    assert BROAD in values && NARROW in values;
    var u := DroppedFirst(values, EXACT, "a/x");
  }

  lemma ExampleMatches()
    ensures Matches(BROAD, "a/x") && Matches(NARROW, "a/x") && Before(NARROW, BROAD)
  {
    hide Top, Base;
    assert "a/x" == "a" + "/" + "x";
    TopOfJoined("a", "x");
    BaseOfJoined("a", "x");
  }

  /** Sorting leaves a table that is in order as it is. */
  lemma {:induction false} SortIdentity<T>(before: (T, T) -> bool, s: seq<T>)
    requires forall i, j :: 0 <= i < j < |s| ==> !before(s[j], s[i])
    ensures SortBy(before, s) == s
  {
    if s != [] {
      SortIdentity(before, s[1..]);
      assert |s| > 1 ==> !before(s[1], s[0]);
      assert s == [s[0]] + s[1..];
    }
  }
}

/** tools/update_path_policy.py: the compiled rule list and its classifier. */
module CompiledPolicy {
  import opened Matchers
  import opened Ordering
  import opened Projections

  datatype RuleKind = MachineKernel | Device(kind: Kind)
  datatype CompiledRule =
    CompiledRule(kind: RuleKind, policy: Option<string>, root: Option<string>, value: Option<string>, suffix: Option<string>)

  const KERNEL_RULE := CompiledRule(MachineKernel, None, None, None, None)

  function PolicyOf(m: Mode): string {
    match m
    case Config => "config-template"
    case Kernel => "kernel"
    case Keep => "preserve"
    case Metadata => "metadata"
    case Replace => "managed-replace"
  }

  function Compiled(m: Matcher): CompiledRule {
    CompiledRule(Device(m.kind), Some(PolicyOf(m.mode)), m.root, m.value, m.suffix)
  }

  function CompiledAll(table: seq<Matcher>): (r: seq<CompiledRule>)
    ensures |r| == |table| && forall i :: 0 <= i < |r| ==> r[i] == Compiled(table[i])
  {
    if table == [] then [] else [Compiled(table[0])] + CompiledAll(table[1..])
  }

  function RuleRank(k: RuleKind): nat {
    if k.MachineKernel? then 0 else Rank(k.kind) + 1
  }

  /** _rule_sort_key */
  predicate RuleBefore(a: CompiledRule, b: CompiledRule) {
    Then(CompareNat(RuleRank(a.kind), RuleRank(b.kind)),
         Then(CompareText(OrEmpty(a.root), OrEmpty(b.root)),
              Then(CompareText(OrEmpty(a.value), OrEmpty(b.value)),
                   Then(CompareText(OrEmpty(a.suffix), OrEmpty(b.suffix)),
                        CompareText(OrEmpty(a.policy), OrEmpty(b.policy)))))) == Less
  }

  datatype RuleKey = RuleKey(kind: RuleKind, root: Option<string>, value: Option<string>, suffix: Option<string>)

  function RuleKeyOf(r: CompiledRule): RuleKey {
    RuleKey(r.kind, r.root, r.value, r.suffix)
  }

  /** The two sort keys put different matchers in the same order. */
  lemma OrdersCoincide(a: Matcher, b: Matcher)
    requires KeyOf(a) != KeyOf(b)
    ensures RuleBefore(Compiled(a), Compiled(b)) <==> Before(a, b)
  {
    KeyOrder(KeyOf(a), KeyOf(b));
    TextOrder(OrEmpty(a.root), OrEmpty(b.root));
    TextOrder(OrEmpty(a.value), OrEmpty(b.value));
    TextOrder(OrEmpty(a.suffix), OrEmpty(b.suffix));
  }

  /** _compile_layout: deduplicate by raw matcher, reject conflicts, sort. */
  method Compile(table: seq<Matcher>) returns (r: Checked<seq<CompiledRule>>)
    ensures DistinctKeys(table) && Sorted(table) ==> r == Ok([KERNEL_RULE] + CompiledAll(table))
  {
    var compiled := [KERNEL_RULE] + CompiledAll(table);
    var byMatcher: map<RuleKey, CompiledRule> := map[];
    var kept: seq<CompiledRule> := [];
    for i := 0 to |compiled|
      invariant DistinctKeys(table) ==> kept == compiled[..i]
      invariant DistinctKeys(table) ==> forall k :: k in byMatcher ==> exists j :: 0 <= j < i && RuleKeyOf(compiled[j]) == k
    {
      var rule := compiled[i];
      var key := RuleKeyOf(rule);
      if DistinctKeys(table) {
        FreshKey(table, i);
      }
      if key in byMatcher {
        if byMatcher[key].policy != rule.policy { return Rejected; }
      } else {
        byMatcher := byMatcher[key := rule];
        kept := kept + [rule];
      }
    }
    if DistinctKeys(table) && Sorted(table) {
      assert kept == compiled;
      AlreadySorted(table);
    }
    return Ok(SortBy(RuleBefore, kept));
  }

  lemma FreshKey(table: seq<Matcher>, i: nat)
    requires DistinctKeys(table) && i < 1 + |table|
    ensures var c := [KERNEL_RULE] + CompiledAll(table);
            forall j :: 0 <= j < i ==> RuleKeyOf(c[j]) != RuleKeyOf(c[i])
  {
    var c := [KERNEL_RULE] + CompiledAll(table);
    forall j | 0 <= j < i
      ensures RuleKeyOf(c[j]) != RuleKeyOf(c[i])
    {
      if j > 0 {
        assert KeyOf(table[j - 1]) != KeyOf(table[i - 1]);
      }
    }
  }

  lemma KernelRuleFirst(m: Matcher)
    ensures !RuleBefore(Compiled(m), KERNEL_RULE)
  {
  }

  lemma RulesInOrder(table: seq<Matcher>, i: nat, j: nat)
    requires DistinctKeys(table) && Sorted(table) && i < j <= |table|
    ensures var c := [KERNEL_RULE] + CompiledAll(table); !RuleBefore(c[j], c[i])
  {
    hide RuleBefore, Before, KeyOf, Compiled, CompiledAll;
    var rules := CompiledAll(table);
    var c := [KERNEL_RULE] + rules;
    assert c[j] == rules[j - 1];
    if i > 0 {
      assert c[i] == rules[i - 1];
      assert KeyOf(table[i - 1]) != KeyOf(table[j - 1]);
      OrdersCoincide(table[j - 1], table[i - 1]);
    } else {
      KernelRuleFirst(table[j - 1]);
    }
  }

  lemma AlreadySorted(table: seq<Matcher>)
    requires DistinctKeys(table) && Sorted(table)
    ensures var c := [KERNEL_RULE] + CompiledAll(table); SortBy(RuleBefore, c) == c
  {
    hide RuleBefore, Before, KeyOf, SortBy, Compiled, DistinctKeys, Sorted;
    var c := [KERNEL_RULE] + CompiledAll(table);
    forall i, j | 0 <= i < j < |c|
      ensures !RuleBefore(c[j], c[i])
    {
      RulesInOrder(table, i, j);
    }
    SortIdentity(RuleBefore, c);
  }

  // ---------------------------------------------------------------- kernel inventory

  datatype KernelRule = KernelRule(scope: Scope, target: string, optional: bool)
  datatype Machine = Machine(name: string, required: bool)
  datatype Split = NoDot | Parts(base: string, machine: string)

  /** target.rsplit(".", 1) */
  function RSplit(target: string): (r: Split)
    ensures r.Parts? ==> target == r.base + "." + r.machine && '.' !in r.machine
    ensures r.NoDot? ==> '.' !in target
  {
    if target == "" then NoDot
    else
      var front, last := target[..|target| - 1], target[|target| - 1];
      if last == '.' then Parts(front, "")
      else
        var r := RSplit(front);
        if r.NoDot? then NoDot else Parts(r.base, r.machine + [last])
  }

  predicate IsKernelTarget(kernels: seq<KernelRule>, b: Board, path: string) {
    exists i :: 0 <= i < |kernels| && b in BoardsOf(kernels[i].scope) && kernels[i].target == path
  }

  function Dotted(base: string, machine: string): string {
    base + "." + machine
  }

  /** The machine list accounts for a kernel rule. */
  ghost predicate Accounts(found: seq<Machine>, base: string, k: KernelRule) {
    exists m :: m in found && k.target == Dotted(base, m.name) && m.required == !k.optional
  }

  /** One of the first n rules puts a machine on a board. */
  ghost predicate Offered(kernels: seq<KernelRule>, n: nat, b: Board, base: string, m: Machine)
    requires n <= |kernels|
  {
    exists i :: 0 <= i < n && b in BoardsOf(kernels[i].scope) && kernels[i].target == Dotted(base, m.name)
  }

  /** A board's inventory is its kernel targets, all under one base. */
  ghost predicate Inventories(kernels: seq<KernelRule>, n: nat, b: Board, base: Option<string>, found: seq<Machine>)
    requires n <= |kernels|
  {
    && (forall i :: 0 <= i < n && b in BoardsOf(kernels[i].scope) ==> base.Some? && Accounts(found, base.value, kernels[i]))
    && (forall m :: m in found ==> base.Some? && Offered(kernels, n, b, base.value, m))
  }

  /** A rule of the board is not spelled base.machine. */
  predicate Misnamed(kernels: seq<KernelRule>, n: nat, b: Board, base: string)
    requires n <= |kernels|
  {
    exists i :: 0 <= i < n && b in BoardsOf(kernels[i].scope)
                && !(RSplit(kernels[i].target).Parts? && RSplit(kernels[i].target).base == base)
  }

  /** The board has kernel targets, all of them machines of one base. */
  ghost predicate OneBase(kernels: seq<KernelRule>, n: nat, b: Board, base: string)
    requires n <= |kernels|
  {
    (exists i :: 0 <= i < n && b in BoardsOf(kernels[i].scope)) && !Misnamed(kernels, n, b, base)
  }

  /** The machines of a board in rule order, each (name, required) pair once. */
  function MachinesOf(kernels: seq<KernelRule>, n: nat, b: Board): seq<Machine>
    requires n <= |kernels|
  {
    if n == 0 then []
    else
      var front, rule := MachinesOf(kernels, n - 1, b), kernels[n - 1];
      var split := RSplit(rule.target);
      if b !in BoardsOf(rule.scope) || split.NoDot? || Machine(split.machine, !rule.optional) in front then front
      else front + [Machine(split.machine, !rule.optional)]
  }

  lemma OneBaseIsFirst(kernels: seq<KernelRule>, n: nat, b: Board, base: string, other: string)
    requires n < |kernels| && OneBase(kernels, n, b, base) && b in BoardsOf(kernels[n].scope)
    requires RSplit(kernels[n].target).NoDot? || RSplit(kernels[n].target).base != base
    ensures !OneBase(kernels, |kernels|, b, other)
  {
    hide RSplit;
    var i :| 0 <= i < n && b in BoardsOf(kernels[i].scope);
    assert RSplit(kernels[i].target).Parts? && RSplit(kernels[i].target).base == base;
  }

  /** One board's turn of _kernel_inventory. */
  method BoardInventory(kernels: seq<KernelRule>, b: Board) returns (r: Checked<(string, seq<Machine>)>)
    ensures r.Ok? ==> Inventories(kernels, |kernels|, b, Some(r.value.0), r.value.1)
    ensures r.Ok? ==> OneBase(kernels, |kernels|, b, r.value.0) && r.value.1 == MachinesOf(kernels, |kernels|, b)
    ensures r.Rejected? ==> forall base :: !OneBase(kernels, |kernels|, b, base)
  {
    hide Accounts, Offered, Inventories, BoardsOf, RSplit;
    var found: seq<Machine> := [];
    var base: Option<string> := None;
    NothingInventoried(kernels, b);
    for n := 0 to |kernels|
      invariant Inventories(kernels, n, b, base, found) && found == MachinesOf(kernels, n, b)
      invariant base.Some? ==> OneBase(kernels, n, b, base.value)
      invariant base.None? ==> forall i :: 0 <= i < n ==> b !in BoardsOf(kernels[i].scope)
    {
      var rule := kernels[n];
      if b in BoardsOf(rule.scope) {
        var split := RSplit(rule.target);
        if split.NoDot? { return Rejected; }
        if base.Some? && base.value != split.base {
          forall other
            ensures !OneBase(kernels, |kernels|, b, other)
          {
            OneBaseIsFirst(kernels, n, b, base.value, other);
          }
          return Rejected;
        }
        var pair := Machine(split.machine, !rule.optional);
        TargetIsDotted(rule.target);
        InventoryGrows(kernels, n, b, base, found, split.base, pair);
        base := Some(split.base);
        if pair !in found { found := found + [pair]; }
      } else {
        InventorySkips(kernels, n, b, base, found);
      }
    }
    if base.None? { return Rejected; }
    return Ok((base.value, found));
  }

  lemma NothingInventoried(kernels: seq<KernelRule>, b: Board)
    ensures Inventories(kernels, 0, b, None, [])
  {
  }

  lemma TargetIsDotted(target: string)
    ensures RSplit(target).Parts? ==> target == Dotted(RSplit(target).base, RSplit(target).machine)
  {
  }

  lemma InventorySkips(kernels: seq<KernelRule>, n: nat, b: Board, base: Option<string>, found: seq<Machine>)
    requires n < |kernels| && b !in BoardsOf(kernels[n].scope) && Inventories(kernels, n, b, base, found)
    ensures Inventories(kernels, n + 1, b, base, found)
  {
    hide Dotted;
    forall m | m in found
      ensures base.Some? && Offered(kernels, n + 1, b, base.value, m)
    {
      assert Offered(kernels, n, b, base.value, m);
    }
  }

  lemma InventoryGrows(kernels: seq<KernelRule>, n: nat, b: Board, was: Option<string>, had: seq<Machine>, base: string, pair: Machine)
    requires n < |kernels| && b in BoardsOf(kernels[n].scope) && Inventories(kernels, n, b, was, had)
    requires was.Some? ==> was.value == base
    requires kernels[n].target == Dotted(base, pair.name) && pair.required == !kernels[n].optional
    ensures Inventories(kernels, n + 1, b, Some(base), if pair in had then had else had + [pair])
  {
    hide Dotted, Accounts, Offered, BoardsOf;
    var found := if pair in had then had else had + [pair];
    assert pair in found && forall m :: m in had ==> m in found;
    forall i | 0 <= i < n + 1 && b in BoardsOf(kernels[i].scope)
      ensures Accounts(found, base, kernels[i])
    {
      if i < n {
        AccountsMore(had, found, base, kernels[i]);
      } else {
        AccountedBy(found, base, kernels[i], pair);
      }
    }
    forall m | m in found
      ensures Offered(kernels, n + 1, b, base, m)
    {
      if m == pair {
        OfferedAt(kernels, n, b, base, m);
      } else {
        OfferedLater(kernels, n, b, base, m);
      }
    }
  }

  lemma AccountsMore(had: seq<Machine>, found: seq<Machine>, base: string, k: KernelRule)
    requires Accounts(had, base, k) && forall m :: m in had ==> m in found
    ensures Accounts(found, base, k)
  {
    hide Dotted;
  }

  lemma AccountedBy(found: seq<Machine>, base: string, k: KernelRule, m: Machine)
    requires m in found && k.target == Dotted(base, m.name) && m.required == !k.optional
    ensures Accounts(found, base, k)
  {
    hide Dotted;
  }

  lemma OfferedAt(kernels: seq<KernelRule>, n: nat, b: Board, base: string, m: Machine)
    requires n < |kernels| && b in BoardsOf(kernels[n].scope) && kernels[n].target == Dotted(base, m.name)
    ensures Offered(kernels, n + 1, b, base, m)
  {
    hide Dotted;
  }

  lemma OfferedLater(kernels: seq<KernelRule>, n: nat, b: Board, base: string, m: Machine)
    requires n < |kernels| && Offered(kernels, n, b, base, m)
    ensures Offered(kernels, n + 1, b, base, m)
  {
    hide Dotted;
  }

  function Names(ms: seq<Machine>, required: bool): seq<string> {
    if ms == [] then []
    else (if ms[0].required == required then [ms[0].name] else []) + Names(ms[1..], required)
  }

  lemma {:induction false} NamesMembers(ms: seq<Machine>, required: bool, name: string)
    ensures name in Names(ms, required) <==> Machine(name, required) in ms
  {
    if ms != [] {
      NamesMembers(ms[1..], required, name);
    }
  }

  predicate NoRepeats(s: seq<string>) {
    forall i, j :: 0 <= i < j < |s| ==> s[i] != s[j]
  }

  datatype Kernels = Kernels(bases: seq<string>, machines: seq<string>)

  /** Some base and some machine of the inventory spell `path`. */
  ghost predicate Product(k: Kernels, path: string) {
    exists base, machine :: base in k.bases && machine in k.machines && path == Dotted(base, machine)
  }

  /** What _kernel_inventory asks of the kernel rules. */
  ghost predicate InventoryOk(kernels: seq<KernelRule>) {
    var n, found := |kernels|, MachinesOf(kernels, |kernels|, Pi4);
    && (exists base :: OneBase(kernels, n, Pi4, base)) && (exists base :: OneBase(kernels, n, Pi5, base))
    && found == MachinesOf(kernels, n, Pi5)
    && |Names(found, true)| >= 7 && "c64" in Names(found, true) && NoRepeats(Names(found, true) + Names(found, false))
  }

  /** _kernel_inventory: both boards must offer the same machines. */
  method KernelInventory(kernels: seq<KernelRule>) returns (r: Checked<Kernels>)
    ensures r.Ok? <==> InventoryOk(kernels)
    ensures r.Ok? ==> forall path :: Product(r.value, path) <==> exists b :: IsKernelTarget(kernels, b, path)
    ensures r.Ok? ==> "c64" in r.value.machines && |r.value.machines| >= 7 && NoRepeats(r.value.machines)
  {
    hide OneBase, MachinesOf, Inventories, Product, IsKernelTarget;
    var four := BoardInventory(kernels, Pi4);
    var five := BoardInventory(kernels, Pi5);
    if four.Rejected? || five.Rejected? { return Rejected; }
    if four.value.1 != five.value.1 { return Rejected; }
    var found := four.value.1;
    var required := Names(found, true);
    var machines := required + Names(found, false);
    if |required| < 7 || "c64" !in required { return Rejected; }
    if !NoRepeats(machines) { return Rejected; }
    var k := Kernels([four.value.0, five.value.0], machines);
    forall path
      ensures Product(k, path) <==> exists b :: IsKernelTarget(kernels, b, path)
    {
      ProductIsTargets(kernels, four.value.0, five.value.0, found, path);
    }
    return Ok(k);
  }

  lemma {:induction false} MachineListed(found: seq<Machine>, name: string)
    ensures name in Names(found, true) + Names(found, false) <==> exists m :: m in found && m.name == name
  {
    NamesMembers(found, true, name);
    NamesMembers(found, false, name);
    if m :| m in found && m.name == name {
      assert m == Machine(name, true) || m == Machine(name, false);
    }
  }

  lemma OfferedIsTarget(kernels: seq<KernelRule>, b: Board, base: string, m: Machine)
    requires Offered(kernels, |kernels|, b, base, m)
    ensures IsKernelTarget(kernels, b, Dotted(base, m.name))
  {
  }

  lemma TargetIsAccounted(kernels: seq<KernelRule>, b: Board, base: string, found: seq<Machine>, path: string) returns (m: Machine)
    requires Inventories(kernels, |kernels|, b, Some(base), found) && IsKernelTarget(kernels, b, path)
    ensures m in found && path == Dotted(base, m.name)
  {
    hide Dotted;
    var i :| 0 <= i < |kernels| && b in BoardsOf(kernels[i].scope) && kernels[i].target == path;
    assert Accounts(found, base, kernels[i]);
    m :| m in found && kernels[i].target == Dotted(base, m.name);
  }

  /** The product of bases and machines is the union of both boards' kernel targets. */
  lemma ProductIsTargets(kernels: seq<KernelRule>, four: string, five: string, found: seq<Machine>, path: string)
    requires Inventories(kernels, |kernels|, Pi4, Some(four), found)
    requires Inventories(kernels, |kernels|, Pi5, Some(five), found)
    ensures Product(Kernels([four, five], Names(found, true) + Names(found, false)), path)
            <==> exists b :: IsKernelTarget(kernels, b, path)
  {
    hide Dotted, Names, IsKernelTarget, Accounts;
    var k := Kernels([four, five], Names(found, true) + Names(found, false));
    if Product(k, path) {
      var base, machine :| base in k.bases && machine in k.machines && path == Dotted(base, machine);
      MachineListed(found, machine);
      var m :| m in found && m.name == machine;
      OfferedIsTarget(kernels, if base == four then Pi4 else Pi5, base, m);
    }
    if b :| IsKernelTarget(kernels, b, path) {
      var base := if b == Pi4 then four else five;
      var m := TargetIsAccounted(kernels, b, base, found, path);
      MachineListed(found, m.name);
      assert base in k.bases && m.name in k.machines && path == Dotted(base, m.name);
    }
  }

  // ---------------------------------------------------------------- the two classifiers

  /** machine_kernel_match, scanning the bases in order. */
  predicate KernelMatch(bases: seq<string>, machines: seq<string>, path: string) {
    '/' !in path && KernelMatchFrom(bases, machines, path)
  }

  predicate KernelMatchFrom(bases: seq<string>, machines: seq<string>, path: string) {
    bases != []
    && ((StartsWith(path, bases[0] + ".") && path[|bases[0]| + 1..] in machines)
        || KernelMatchFrom(bases[1..], machines, path))
  }

  predicate RuleMatches(r: CompiledRule, path: string) {
    && r.kind.Device?
    && (r.root.Some? ==> Top(path) == r.root.value)
    && match r.kind.kind
       case ExactPath => r.value == Some(path)
       case TopRoot => true
       case BasenameExact => r.value == Some(Base(path))
       case BasenameSuffix => EndsWith(Base(path), OrEmpty(r.suffix))
       case BasenamePrefixSuffix => StartsWith(Base(path), OrEmpty(r.value)) && EndsWith(Base(path), OrEmpty(r.suffix))
  }

  /** classify_bmx_path's scan, after the path itself was accepted. */
  function ClassifyFrom(rules: seq<CompiledRule>, k: Kernels, path: string): Option<string> {
    if rules == [] then None
    else if rules[0].kind.MachineKernel? then
      if KernelMatch(k.bases, k.machines, path) then Some("kernel") else ClassifyFrom(rules[1..], k, path)
    else if RuleMatches(rules[0], path) then rules[0].policy
    else ClassifyFrom(rules[1..], k, path)
  }

  function Classify(rules: seq<CompiledRule>, k: Kernels, fatValid: string -> bool, path: string): Option<string> {
    if path == "" || path[|path| - 1] == '/' || !fatValid(path) then None else ClassifyFrom(rules, k, path)
  }

  /** _device_mode_from_projection */
  ghost function ProjectionMode(kernels: seq<KernelRule>, table: seq<Matcher>, path: string): Option<Mode> {
    if exists b :: IsKernelTarget(kernels, b, path) then Some(Kernel) else FirstMode(table, path)
  }

  function PolicyOption(m: Option<Mode>): Option<string> {
    if m.Some? then Some(PolicyOf(m.value)) else None
  }

  lemma {:induction false} KernelMatchIsProduct(bases: seq<string>, machines: seq<string>, path: string)
    ensures KernelMatchFrom(bases, machines, path) <==> Product(Kernels(bases, machines), path)
  {
    if bases != [] {
      var rest := Kernels(bases[1..], machines);
      KernelMatchIsProduct(bases[1..], machines, path);
      var head := bases[0] + ".";
      if StartsWith(path, head) && path[|head|..] in machines {
        assert path == Dotted(bases[0], path[|head|..]);
        assert Product(Kernels(bases, machines), path);
      }
      if Product(rest, path) {
        var base, machine :| base in rest.bases && machine in machines && path == Dotted(base, machine);
        assert base in bases;
      }
      if base, machine :| base in bases && machine in machines && path == Dotted(base, machine) {
        if base == bases[0] {
          assert path[..|head|] == head && path[|head|..] == machine;
        } else {
          assert base in rest.bases;
        }
      }
    }
  }

  lemma {:induction false} ScansAgree(table: seq<Matcher>, k: Kernels, path: string)
    ensures ClassifyFrom(CompiledAll(table), k, path) == PolicyOption(FirstMode(table, path))
  {
    if table != [] {
      assert CompiledAll(table)[1..] == CompiledAll(table[1..]);
      ScansAgree(table[1..], k, path);
    }
  }

  /**
   The compiled classifier and the projection classifier agree on every path the FAT
   rules accept, whenever the layout compiles: kernel targets are top-level names and
   the inventory is the product of its bases and machines.
   */
  lemma ClassifiersAgree(kernels: seq<KernelRule>, table: seq<Matcher>, k: Kernels, fatValid: string -> bool, path: string)
    requires forall i :: 0 <= i < |kernels| ==> '/' !in kernels[i].target
    requires Product(k, path) <==> exists b :: IsKernelTarget(kernels, b, path)
    requires fatValid(path) && path != "" && path[|path| - 1] != '/'
    ensures Classify([KERNEL_RULE] + CompiledAll(table), k, fatValid, path)
            == PolicyOption(ProjectionMode(kernels, table, path))
  {
    KernelMatchIsProduct(k.bases, k.machines, path);
    ScansAgree(table, k, path);
    assert ([KERNEL_RULE] + CompiledAll(table))[1..] == CompiledAll(table);
  }

  datatype Policy = Policy(kernels: Kernels, rules: seq<CompiledRule>)

  /** Every path the FAT rules accept has one policy in both forms of the layout. */
  ghost predicate Faithful(p: Policy, kernels: seq<KernelRule>, table: seq<Matcher>) {
    forall fatValid: string -> bool, path: string :: fatValid(path) && path != "" && path[|path| - 1] != '/' ==>
      Classify(p.rules, p.kernels, fatValid, path) == PolicyOption(ProjectionMode(kernels, table, path))
  }

  function KernelsOf(rules: seq<LayoutRule>): (r: seq<KernelRule>)
    ensures forall k :: k in r ==> exists i :: 0 <= i < |rules| && rules[i].target == k.target
  {
    if rules == [] then []
    else
      var tail := KernelsOf(rules[1..]);
      assert forall i :: 0 <= i < |rules[1..]| ==> rules[1..][i] == rules[i + 1];
      if rules[0].shape.FileRule? && rules[0].mode == Kernel
      then [KernelRule(rules[0].scope, rules[0].target, rules[0].optional)] + tail
      else tail
  }

  /** A rule that adds a directory root to the projection. */
  predicate HasRoot(rule: LayoutRule) {
    !rule.shape.FileRule? || ('/' in rule.target && !StartsWith(rule.target, "**/"))
  }

  predicate HasRoots(rules: seq<LayoutRule>) {
    exists i :: 0 <= i < |rules| && HasRoot(rules[i])
  }

  /** _compile_layout on a loaded layout, whose kernel targets are top-level names. */
  method CompileLayout(rules: seq<LayoutRule>) returns (r: Checked<Policy>)
    requires Loaded(rules) && forall k :: k in KernelsOf(rules) ==> '/' !in k.target
    ensures r.Ok? ==>
              && Expand(rules).Ok?
              && exists inv, table ::
                   Describes(inv, Expand(rules).value) && Projected(inv, table) && Faithful(r.value, KernelsOf(rules), table)
    ensures r.Rejected? <==>
              || Expand(rules).Rejected? || Conflicting(Expand(rules).value, |Expand(rules).value|) || Leaky(Expand(rules).value)
              || !InventoryOk(KernelsOf(rules)) || !HasRoots(rules)
  {
    hide Describes, Projected, Classify, ProjectionMode, Conflicting, Leaky, InventoryOk;
    var expanded := Expand(rules);
    if expanded.Rejected? { return Rejected; }
    var entries, kernels := expanded.value, KernelsOf(rules);
    var projected := Project(entries);
    if projected.Rejected? { return Rejected; }
    var inventory := KernelInventory(kernels);
    if inventory.Rejected? { return Rejected; }
    var table := projected.value;
    ghost var inv :| Describes(inv, entries) && Projected(inv, table);
    ProjectedInOrder(entries, inv, table);
    var compiled := Compile(table);
    if !HasRoots(rules) { return Rejected; }
    var policy := Policy(inventory.value, compiled.value);
    forall fatValid: string -> bool, path: string | fatValid(path) && path != "" && path[|path| - 1] != '/'
      ensures Classify(policy.rules, policy.kernels, fatValid, path) == PolicyOption(ProjectionMode(kernels, table, path))
    {
      ClassifiersAgree(kernels, table, inventory.value, fatValid, path);
    }
    assert Faithful(policy, kernels, table);
    return Ok(policy);
  }
}
