/**
 Completeness of lossless migration (src/update/config_migration.cpp): what a caller
 can check on the source and the buffers alone is enough for the change to be made.
 */
module ConfigLossless {
  import opened ConfigText
  import opened ConfigDetect
  import opened ConfigHeaders
  import opened ConfigBlock
  import opened ConfigCmdline
  import opened ConfigPaths
  import opened ConfigRegistry
  import opened ConfigApply

  // ---------------------------------------------------------------- a marker costs at most 38 bytes

  function Cost(ts: seq<string>): nat {
    if ts == [] then 0 else |ts[0]| + 1 + Cost(ts[1..])
  }

  lemma {:induction false} CostSnoc(ts: seq<string>, t: string)
    ensures Cost(ts + [t]) == Cost(ts) + |t| + 1
  {
    if ts == [] {
      assert ts + [t] == [t] && [t][1..] == [];
    } else {
      assert (ts + [t])[1..] == ts[1..] + [t];
      CostSnoc(ts[1..], t);
    }
  }

  lemma {:induction false} JoinCost(ts: seq<string>)
    ensures |JoinTokens(ts)| == if ts == [] then 0 else Cost(ts) - 1
  {
    if ts != [] {
      var front, last := ts[..|ts| - 1], ts[|ts| - 1];
      assert ts == front + [last];
      CostSnoc(front, last);
      JoinCost(front);
    }
  }

  lemma {:induction false} TokensCost(s: string)
    ensures Cost(Tokens(s)) <= |s| + 1
    decreases |s|
  {
    if s != "" {
      if IsBlank(s[0]) {
        TokensCost(s[1..]);
      } else {
        var rest := s[TokenEnd(s)..];
        if rest != "" {
          TokensCost(rest[1..]);
        }
        assert ([s[..TokenEnd(s)]] + Tokens(rest))[1..] == Tokens(rest);
      }
    }
  }

  lemma {:induction false} KeptCost(a: Area, ts: seq<string>)
    ensures Cost(Kept(a, true, ts)) <= Cost(ts) && |Kept(a, true, ts)| <= |ts|
  {
    hide IsMarker, Owns;
    if ts != [] {
      var front, t := ts[..|ts| - 1], ts[|ts| - 1];
      assert ts == front + [t];
      KeptCost(a, front);
      CostSnoc(front, t);
      CostSnoc(Kept(a, true, front), t);
      assert Kept(a, true, front) + [] == Kept(a, true, front);
    }
  }

  /** Room for a new marker: in the file, on line one and in the token table. */
  predicate MarkerRoom(content: string) {
    |content| + 38 <= MAX_CMDLINE && TextEnd(content) + 38 <= MAX_LINE && |LineTokens(content)| < MAX_TOKENS
  }

  lemma MarkerLength(a: Area, content: string, v: nat)
    requires 0 < v <= UINT32_MAX
    ensures var ts := NewTokens(a, LineTokens(content), None, v);
            |JoinTokens(ts)| <= TextEnd(content) + 38 && |ts| <= |LineTokens(content)| + 1
  {
    hide Marker, JoinTokens, Tokens, Kept;
    var kept := Kept(a, true, LineTokens(content));
    var ts := NewTokens(a, LineTokens(content), None, v);
    assert ts == kept + [Marker(a, v)];
    JoinCost(ts);
    CostSnoc(kept, Marker(a, v));
    KeptCost(a, LineTokens(content));
    TokensCost(content[..TextEnd(content)]);
    MarkerChars(a, v);
  }

  lemma MarkerFits(a: Area, content: string, v: nat)
    requires 0 < v <= UINT32_MAX && SafeChars(content) && MarkerRoom(content)
    ensures RewriteFits(a, content, None, v) && |Rewritten(a, content, None, v)| <= |content| + 38
  {
    hide JoinTokens, NewTokens, LineTokens, SafeChars;
    MarkerLength(a, content, v);
    RewriteRetokenises(a, content, None, v);
  }

  // ---------------------------------------------------------------- the total does not depend on the order

  lemma {:induction false} TotalAppend(a: seq<File>, b: seq<File>)
    ensures Total(a + b) == Total(a) + Total(b)
  {
    if b == [] {
      assert a + b == a;
    } else {
      assert (a + b)[..|a + b| - 1] == a + b[..|b| - 1];
      TotalAppend(a, b[..|b| - 1]);
    }
  }

  function Without(t: seq<File>, k: nat): seq<File>
    requires k < |t|
  {
    t[..k] + t[k + 1..]
  }

  lemma WithoutOne(t: seq<File>, k: nat)
    requires k < |t| && DistinctPaths(t)
    ensures DistinctPaths(Without(t, k)) && forall f :: f in Without(t, k) <==> f in t && f != t[k]
  {
    var rest := Without(t, k);
    assert forall i :: 0 <= i < |rest| ==> rest[i] == if i < k then t[i] else t[i + 1];
    forall f | f in t && f != t[k]
      ensures f in rest
    {
      var i :| 0 <= i < |t| && t[i] == f;
      assert rest[if i < k then i else i - 1] == f;
    }
  }

  lemma TotalWithout(t: seq<File>, k: nat)
    requires k < |t|
    ensures Total(t) == Total(Without(t, k)) + |t[k].content|
  {
    assert t == t[..k] + [t[k]] + t[k + 1..];
    TotalAppend(t[..k] + [t[k]], t[k + 1..]);
    TotalAppend(t[..k], [t[k]]);
    TotalAppend(t[..k], t[k + 1..]);
    assert [t[k]][..0] == [];
  }

  lemma {:induction false} TotalOfSameFiles(s: seq<File>, t: seq<File>)
    requires DistinctPaths(s) && DistinctPaths(t) && forall f :: f in s <==> f in t
    ensures Total(s) == Total(t)
    decreases |s|
  {
    hide Total, DistinctPaths, Without;
    if s == [] {
      if t != [] {
        FirstIsIn(t);
        assert false;
      }
    } else {
      var last := |s| - 1;
      assert s[last] in t;
      var k :| 0 <= k < |t| && t[k] == s[last];
      WithoutOne(s, last);
      WithoutOne(t, k);
      TotalWithout(s, last);
      TotalWithout(t, k);
      WithoutShorter(s, last);
      TotalOfSameFiles(Without(s, last), Without(t, k));
    }
  }

  lemma FirstIsIn(t: seq<File>)
    requires t != []
    ensures exists f :: f in t
  {
    assert t[0] in t;
  }

  lemma WithoutShorter(t: seq<File>, k: nat)
    requires k < |t|
    ensures |Without(t, k)| == |t| - 1
  {
  }

  /** The source files in the order of the sinks. */
  function Fed(s: Snapshot, sinks: seq<Sink>): (r: seq<File>)
    requires SinksMatch(s, sinks)
    ensures |r| == |sinks| && forall i :: 0 <= i < |sinks| ==> r[i] == Feed(s, sinks, i)
  {
    seq(|sinks|, i requires 0 <= i < |sinks| => Feed(s, sinks, i))
  }

  lemma FedTotal(s: Snapshot, sinks: seq<Sink>)
    requires ShapeOk(s) && SinksMatch(s, sinks)
    ensures Total(Fed(s, sinks)) == Total(s.files)
  {
    hide PathBelongs, FindFile, Total;
    var fed := Fed(s, sinks);
    assert DistinctPaths(fed);
    forall f
      ensures f in fed <==> f in s.files
    {
      if f in s.files {
        FeedReaches(s, sinks, f);
      }
    }
    TotalOfSameFiles(fed, s.files);
  }

  lemma {:induction false} TotalGrows(a: seq<File>, b: seq<File>, k: nat)
    requires |a| == |b| && forall i :: 0 <= i < |a| ==> |b[i].content| <= |a[i].content| + k
    ensures Total(b) <= Total(a) + k * |a|
  {
    if a != [] {
      TotalGrows(a[..|a| - 1], b[..|b| - 1], k);
    }
  }

  // ---------------------------------------------------------------- completeness

  /** What tells the compiled identifiers apart: length, first and last letter. */
  function Fingerprint(id: string): (nat, char, char) {
    if id == "" then (0, ' ', ' ') else (|id|, id[0], id[|id| - 1])
  }

  predicate DistinctIds(ms: seq<Migration>) {
    forall i, j :: 0 <= i < j < |ms| ==> Fingerprint(ms[i].id) != Fingerprint(ms[j].id)
  }

  lemma CompiledDiffer(i: nat, j: nat)
    requires i < j < |COMPILED|
    ensures Fingerprint(COMPILED[i].id) != Fingerprint(COMPILED[j].id)
  {
  }

  lemma CompiledDistinct()
    ensures DistinctIds(COMPILED)
  {
    hide Fingerprint;
    forall i, j | 0 <= i < j < |COMPILED|
      ensures Fingerprint(COMPILED[i].id) != Fingerprint(COMPILED[j].id)
    {
      CompiledDiffer(i, j);
    }
  }

  lemma CompiledIdFits(m: Migration)
    requires m in COMPILED
    ensures 0 < |m.id| <= MAX_ID
  {
  }

  lemma {:induction false} FoundIn(ms: seq<Migration>, m: Migration)
    requires DistinctIds(ms) && m in ms
    ensures FindIn(ms, m.id) == Some(m)
  {
    var i :| 0 <= i < |ms| && ms[i] == m;
    if i > 0 {
      assert Fingerprint(ms[0].id) != Fingerprint(m.id);
      assert ms[1..][i - 1] == m;
      FoundIn(ms[1..], m);
    }
  }

  /** The registry finds each of its entries by its identifier. */
  lemma CompiledIsFound(m: Migration)
    requires m in COMPILED
    ensures FindCompiled(m.id) == Some(m)
  {
    hide DistinctIds, FindIn;
    CompiledDistinct();
    CompiledIdFits(m);
    FoundIn(COMPILED, m);
  }

  /** The request that a lossless compiled migration answers. */
  function LosslessRequest(m: Migration, s: Snapshot, defaults: Option<Snapshot>): Request {
    Request(m.area, m.id, 1, 2, false, Some(s), defaults)
  }

  lemma LosslessIsAdmitted(reader: StateReader, m: Migration, s: Snapshot, defaults: Option<Snapshot>, sinks: seq<Sink>)
    requires m in COMPILED && !m.lossy && s.area == m.area && ShapeOk(s) && DetectArea(reader, s) == Valid(1)
    requires SinksMatch(s, sinks)
    ensures Admit(reader, LosslessRequest(m, s, defaults), sinks) == Chosen(m)
    ensures SinksServe(LosslessRequest(m, s, defaults), m, sinks) && Admitted(reader, LosslessRequest(m, s, defaults), m)
  {
    hide SinksMatch, FindCompiled;
    CompiledIsFound(m);
    CompiledOffers(m);
    SameCount(s, sinks);
    ValidHasFiles(reader, s);
    hide ShapeOk, DetectArea;
    AdmitEstablishes(reader, LosslessRequest(m, s, defaults), sinks);
  }

  lemma ValidHasFiles(reader: StateReader, s: Snapshot)
    requires DetectArea(reader, s).Valid?
    ensures s.files != []
  {
  }

  /** Room that a caller can see on the source: 96 spare bytes everywhere, and a marker's room in cmdline.txt. */
  predicate SourceRoom(s: Snapshot, sinks: seq<Sink>)
    requires SinksMatch(s, sinks)
  {
    && (forall i :: 0 <= i < |sinks| ==>
          |Feed(s, sinks, i).content| + 96 <= sinks[i].capacity && |Feed(s, sinks, i).content| + 96 <= MAX_FILE)
    && Total(s.files) + 96 * |s.files| <= MAX_AREA
    && (CmdlineArea(s.area) ==> MarkerRoom(OnlyContent(s)))
  }

  lemma OneFeed(s: Snapshot, sinks: seq<Sink>)
    requires SinksMatch(s, sinks) && |s.files| == 1
    ensures |sinks| == 1 && Feed(s, sinks, 0) == s.files[0]
  {
    hide SinksMatch;
    OneSink(s, sinks);
  }

  lemma HeaderAddedLength(content: string, b: Bounds, v: nat)
    requires 0 < v <= UINT32_MAX && b.start <= |content|
    ensures |HeaderAdded(content, b, v)| <= |content| + 96
  {
    hide HeaderLine;
    HeaderIsPlain(ConfigManagedBlock, v);
  }

  /** No lossless transformation of one file adds more than 96 bytes. */
  lemma OneFileGrows(reader: StateReader, m: Migration, s: Snapshot, defaults: Option<Snapshot>, path: string)
    requires !m.lossy && !m.transform.TextHeader? && Admitted(reader, LosslessRequest(m, s, defaults), m)
    requires FindFile(s.files, path).Some? && (CmdlineArea(s.area) ==> MarkerRoom(OnlyContent(s)))
    ensures |s.files| == 1 && |NewContent(reader, LosslessRequest(m, s, defaults), m, path)| <= |OnlyContent(s)| + 96
  {
    hide ShapeOk, DetectArea, BlockParts, HeaderAdded, Rewritten, FindFile, MarkerRoom, DetectLine, DetectBlock;
    OneFileAreas(reader, s);
    if m.transform.CmdlineMarker? {
      LineIsSafe(m.area, OnlyContent(s));
      MarkerFits(m.area, OnlyContent(s), 2);
    } else {
      HeaderAddedLength(OnlyContent(s), BoundsOf(BlockParts(OnlyContent(s))), 2);
    }
  }

  lemma ContentGrows(reader: StateReader, m: Migration, s: Snapshot, defaults: Option<Snapshot>, sinks: seq<Sink>, i: nat)
    requires !m.lossy && Admitted(reader, LosslessRequest(m, s, defaults), m) && SinksServe(LosslessRequest(m, s, defaults), m, sinks)
    requires i < |sinks| && SourceRoom(s, sinks)
    ensures |NewContent(reader, LosslessRequest(m, s, defaults), m, sinks[i].path)| <= |Feed(s, sinks, i).content| + 96
  {
    hide ShapeOk, SinksMatch, DetectArea, HeaderLine, FindFile, Total, MarkerRoom, Rewritten, HeaderAdded, Replaced;
    if m.transform.TextHeader? {
      HeaderIsPlain(m.area, 2);
    } else {
      OneFileGrows(reader, m, s, defaults, sinks[i].path);
      OneFeed(s, sinks);
    }
  }

  lemma LineIsSafe(a: Area, content: string)
    requires DetectLine(a, content).Valid?
    ensures SafeChars(content)
  {
    hide LineTokens, TokensFault;
    FaultsAreFaults(a, content);
  }

  lemma LosslessWithinLimits(reader: StateReader, m: Migration, s: Snapshot, defaults: Option<Snapshot>, sinks: seq<Sink>)
    requires !m.lossy && Admitted(reader, LosslessRequest(m, s, defaults), m) && SinksServe(LosslessRequest(m, s, defaults), m, sinks)
    requires SourceRoom(s, sinks)
    ensures var req := LosslessRequest(m, s, defaults);
            Roomy(req, m, sinks) && AllFit(NewContents(reader, req, m, sinks), sinks) && WithinLimits(reader, req, m, sinks)
  {
    hide ShapeOk, SinksMatch, DetectArea, NewContent, Total, MarkerRoom, RewriteFits, DetectLine;
    var req := LosslessRequest(m, s, defaults);
    var contents := NewContents(reader, req, m, sinks);
    forall i | 0 <= i < |sinks|
      ensures |contents[i]| <= |Feed(s, sinks, i).content| + 96
    {
      ContentGrows(reader, m, s, defaults, sinks, i);
    }
    FedTotal(s, sinks);
    SameCount(s, sinks);
    TotalGrows(Fed(s, sinks), Written(sinks, contents), 96);
    if CmdlineArea(s.area) {
      OneFileAreas(reader, s);
      LineIsSafe(m.area, OnlyContent(s));
      MarkerFits(m.area, OnlyContent(s), 2);
    }
  }

  /**
   Lossless migration is complete: every well-formed source detected at version 1,
   without an explicit header in the header areas, with independent buffers and room
   to spare, is migrated, and the output is detected at version 2.
   */
  lemma LosslessIsComplete(reader: StateReader, m: Migration, s: Snapshot, defaults: Option<Snapshot>, sinks: seq<Sink>)
    requires m in COMPILED && !m.lossy && s.area == m.area && ShapeOk(s) && DetectArea(reader, s) == Valid(1)
    requires SinksMatch(s, sinks) && SourceRoom(s, sinks)
    requires CmdlineArea(m.area) || Headerless(s)
    ensures var out := Apply(reader, LosslessRequest(m, s, defaults), sinks, true);
            && out.Done? && |out.contents| == |sinks|
            && DetectArea(reader, Snapshot(s.area, Written(sinks, out.contents))) == Valid(2)
            && ShapeOk(Snapshot(s.area, Written(sinks, out.contents)))
  {
    hide ShapeOk, SinksMatch, DetectArea, SourceRoom, Headerless, WithinLimits, AllFit, Roomy, NewContents, Admit, Written;
    LosslessIsAdmitted(reader, m, s, defaults, sinks);
    LosslessWithinLimits(reader, m, s, defaults, sinks);
    ApplyExact(reader, LosslessRequest(m, s, defaults), sinks);
  }

  /** And an explicit header stops it: such a source, at version 1 too, is never migrated. */
  lemma ExplicitHeaderIsRefused(reader: StateReader, m: Migration, s: Snapshot, defaults: Option<Snapshot>, sinks: seq<Sink>)
    requires m in COMPILED && !m.lossy && s.area == m.area && ShapeOk(s) && DetectArea(reader, s) == Valid(1)
    requires SinksMatch(s, sinks) && SourceRoom(s, sinks)
    requires !CmdlineArea(m.area) && !Headerless(s)
    ensures Apply(reader, LosslessRequest(m, s, defaults), sinks, true) == Rejected(SemanticRevalidationFailed)
  {
    hide ShapeOk, SinksMatch, DetectArea, SourceRoom, Headerless, WithinLimits, AllFit, Roomy, NewContents, Admit, Written;
    LosslessIsAdmitted(reader, m, s, defaults, sinks);
    LosslessWithinLimits(reader, m, s, defaults, sinks);
    ApplyExact(reader, LosslessRequest(m, s, defaults), sinks);
  }

  const SETTINGS_TEXT := HeaderLine(Settings, 1).raw
  const HEADED_SETTINGS := Snapshot(Settings, [File("settings.txt", SETTINGS_TEXT)])
  const SETTINGS_SINK := [Sink("settings.txt", 200)]

  lemma HeadedSettingsDetected()
    ensures DetectSettings(HEADED_SETTINGS.files) == Valid(1) && !Headerless(HEADED_SETTINGS)
  {
    hide HeaderLine, DetectSettingsFile, Split, HasHeader;
    var h := HeaderLine(Settings, 1);
    EmptySettings();
    HeaderIsPlain(Settings, 1);
    assert h.raw + "" == h.raw;
    HeaderInFront(Settings, 1, "");
    SettingsFileGainsHeader("", 1);
    var f := File("settings.txt", h.raw);
    assert DetectSettingsFile(f.content) == Valid(1);
    SettingsExact([f], 1);
    assert f in [f];
    HeaderShows(h, 1);
  }

  lemma SettingsPathIsSafe()
    ensures PathBelongs(Settings, "settings.txt")
  {
    hide ComponentEnd;
    var p := "settings.txt";
    NoSlash(p);
    assert p[..|p|] == p;
    assert p[..8] == "settings" && p[8..] == ".txt";
  }

  lemma HeadedSettingsShape()
    ensures ShapeOk(HEADED_SETTINGS) && SinksMatch(HEADED_SETTINGS, SETTINGS_SINK) && SourceRoom(HEADED_SETTINGS, SETTINGS_SINK)
  {
    hide PathBelongs, HeaderLine;
    SettingsPathIsSafe();
    HeaderIsPlain(Settings, 1);
    assert HEADED_SETTINGS.files[..0] == [] && Total(HEADED_SETTINGS.files[..0]) == 0;
    assert |SETTINGS_TEXT| <= 96 && Total(HEADED_SETTINGS.files) == |SETTINGS_TEXT|;
    assert FindFile(HEADED_SETTINGS.files, "settings.txt") == Some(HEADED_SETTINGS.files[0]);
    OneFeed(HEADED_SETTINGS, SETTINGS_SINK);
  }

  /** There is such a source: a settings file that names its version 1 is not migrated. */
  lemma ExplicitHeaderExists(reader: StateReader, defaults: Option<Snapshot>)
    ensures DetectArea(reader, HEADED_SETTINGS) == Valid(1)
    ensures Apply(reader, LosslessRequest(COMPILED[4], HEADED_SETTINGS, defaults), SETTINGS_SINK, true)
         == Rejected(SemanticRevalidationFailed)
  {
    hide ShapeOk, SinksMatch, SourceRoom, Headerless, Apply, DetectSettings;
    HeadedSettingsDetected();
    HeadedSettingsShape();
    var m := COMPILED[4];
    assert m in COMPILED;
    ExplicitHeaderIsRefused(reader, m, HEADED_SETTINGS, defaults, SETTINGS_SINK);
  }

  lemma EmptySettings()
    ensures DetectSettingsFile("") == Valid(1) && Split("") == Lines([], true) && !HasHeader(Settings, [])
  {
  }

  lemma HeaderShows(h: Line, v: nat)
    requires 0 < v <= UINT32_MAX && h == HeaderLine(Settings, v)
    ensures HasHeader(Settings, [h] + [])
  {
    hide ParseHeader, Trim;
    HeaderIsPlain(Settings, v);
    HeaderRoundTrip(Settings, v);
    assert ([h] + [])[0] == h;
  }

  /**
   Frame between the two areas of cmdline.txt: whenever a change of one area is made,
   the other area's tokens are untouched, and if it was valid it is valid with the
   same version.
   */
  lemma CmdlineChangeKeepsOther(reader: StateReader, req: Request, sinks: seq<Sink>, o: Area)
    requires Apply(reader, req, sinks, true).Done? && CmdlineArea(req.area) && CmdlineArea(o) && o != req.area
    ensures var contents := Apply(reader, req, sinks, true).contents;
            && req.source.Some? && |req.source.value.files| == |contents| == |sinks| == 1
            && Own(o, LineTokens(contents[0])) == Own(o, LineTokens(req.source.value.files[0].content))
            && (DetectCmdline(o, req.source.value.files).Valid? ==>
                  DetectCmdline(o, Written(sinks, contents)) == DetectCmdline(o, req.source.value.files))
  {
    hide Admit, ShapeOk, SinksMatch, DetectArea, DetectLine, NewContent, Rewritten, LineTokens, Own, RewriteFits, Revalidates, Roomy, AllFit;
    AdmitEstablishes(reader, req, sinks);
    var m := Admit(reader, req, sinks).m;
    var s := req.source.value;
    var contents := NewContents(reader, req, m, sinks);
    OneFileAreas(reader, s);
    OneSink(s, sinks);
    CmdlineExact(reader, req, m, sinks);
    var given := if m.lossy then Some(OnlyContent(req.defaults.value)) else None;
    if m.lossy {
      OneFileAreas(reader, req.defaults.value);
    }
    RewrittenContent(reader, req, m, sinks[0].path);
    RewriteKeepsOther(req.area, o, OnlyContent(s), given, 2);
    assert Written(sinks, contents) == [File("cmdline.txt", contents[0])];
  }

  lemma RewrittenContent(reader: StateReader, req: Request, m: Migration, path: string)
    requires Admitted(reader, req, m) && CmdlineArea(req.area) && FindFile(Expected(req, m).files, path).Some?
    ensures NewContent(reader, req, m, path)
         == Rewritten(req.area, OnlyContent(req.source.value),
                      if m.lossy then Some(OnlyContent(req.defaults.value)) else None, 2)
  {
    hide ShapeOk, DetectArea, FindFile, Rewritten;
  }

  // ---------------------------------------------------------------- an example

  const EMPTY_CMDLINE := Snapshot(Network, [File("cmdline.txt", "")])
  const SMALL_SINK := [Sink("cmdline.txt", 96)]

  lemma CmdlinePathIsSafe()
    ensures PathBelongs(Network, "cmdline.txt")
  {
    hide ComponentEnd;
    var p := "cmdline.txt";
    NoSlash(p);
    assert p[..|p|] == p;
  }

  lemma {:induction false} NoSlash(s: string)
    requires '/' !in s
    ensures ComponentEnd(s) == |s|
  {
    if s != "" {
      assert s[0] in s;
      NoSlash(s[1..]);
    }
  }

  lemma EmptyCmdlineIsValid()
    ensures DetectLine(Network, "") == Valid(1) && LineTokens("") == [] && MarkerRoom("")
  {
    assert ""[..0] == "" && ""[0..] == "";
    assert SecondLine("") == Some(0) && CommentsFault("").None?;
  }

  lemma EmptyCmdlineShape()
    ensures ShapeOk(EMPTY_CMDLINE) && SinksMatch(EMPTY_CMDLINE, SMALL_SINK)
  {
    hide PathBelongs;
    CmdlinePathIsSafe();
    assert EMPTY_CMDLINE.files[..0] == [];
    assert FindFile(EMPTY_CMDLINE.files, "cmdline.txt") == Some(File("cmdline.txt", ""));
  }

  /** An empty cmdline.txt migrates into 96 bytes: the conditions of completeness can be met. */
  lemma EmptyCmdlineMigrates(reader: StateReader, defaults: Option<Snapshot>)
    ensures Apply(reader, LosslessRequest(COMPILED[3], EMPTY_CMDLINE, defaults), SMALL_SINK, true).Done?
  {
    hide ShapeOk, SinksMatch, DetectLine, Apply, SourceRoom;
    EmptyCmdlineShape();
    EmptyCmdlineIsValid();
    EmptyCmdlineRoom();
    var m := COMPILED[3];
    assert m in COMPILED;
    LosslessIsComplete(reader, m, EMPTY_CMDLINE, defaults, SMALL_SINK);
  }

  lemma EmptyCmdlineRoom()
    ensures SinksMatch(EMPTY_CMDLINE, SMALL_SINK) && SourceRoom(EMPTY_CMDLINE, SMALL_SINK)
  {
    hide SinksMatch, MarkerRoom, FindFile;
    EmptyCmdlineShape();
    EmptyCmdlineIsValid();
    assert EMPTY_CMDLINE.files[..0] == [];
    OneFeed(EMPTY_CMDLINE, SMALL_SINK);
  }
}
