/**
 Applying a compiled migration to one configuration area (src/update/config_migration.cpp):
 the registry, the request checks in their order, the transformations and the
 re-detection of what they wrote.
 */
module ConfigPaths {
  import opened ConfigText
  import opened ConfigDetect

  // ---------------------------------------------------------------- paths and snapshots

  function ComponentEnd(s: string): (e: nat)
    ensures e <= |s|
  {
    if s == "" || s[0] == '/' then 0 else 1 + ComponentEnd(s[1..])
  }

  predicate ComponentOk(c: string) {
    c != "" && c != "." && c != ".." && forall i :: 0 <= i < |c| ==> ' ' <= c[i] <= '~' && c[i] != '\\'
  }

  predicate ComponentsOk(s: string)
    decreases |s|
  {
    var e := ComponentEnd(s);
    ComponentOk(s[..e]) && (e < |s| ==> ComponentsOk(s[e + 1..]))
  }

  /** IsSafeRelativePath */
  predicate SafeRelativePath(path: string) {
    0 < |path| <= MAX_PATH && ComponentsOk(path)
  }

  predicate SettingsNameChar(c: char) {
    'a' <= c <= 'z' || 'A' <= c <= 'Z' || '0' <= c <= '9' || c == '-' || c == '_'
  }

  /** IsSettingsPath */
  predicate SettingsPath(path: string) {
    && |path| >= 12 && path[..8] == "settings" && path[|path| - 4..] == ".txt"
    && forall i :: 8 <= i < |path| - 4 ==> SettingsNameChar(path[i])
  }

  /** PathBelongsToArea */
  predicate PathBelongs(area: Area, path: string) {
    SafeRelativePath(path) &&
    match area
    case Machines => path == "machines.ini" || path == "machines.defaults.ini" || path == "machines.local.ini"
    case ConfigManagedBlock => path == "config.txt"
    case CmdlineManagedKeys => path == "cmdline.txt"
    case Network => path == "cmdline.txt"
    case Settings => SettingsPath(path)
    case UpdateState =>
      path == "BMX-BUILD.json" || path == ".bmx-update/transaction/journal.a" || path == ".bmx-update/transaction/journal.b"
    case UnknownArea => false
  }

  function Total(files: seq<File>): nat {
    if files == [] then 0 else Total(files[..|files| - 1]) + |files[|files| - 1].content|
  }

  predicate DistinctPaths(files: seq<File>) {
    forall i, j :: 0 <= i < j < |files| ==> files[i].path != files[j].path
  }

  /** ValidateAreaSnapshotShape */
  predicate ShapeOk(s: Snapshot) {
    && !s.area.UnknownArea? && |s.files| <= MAX_FILES && Total(s.files) <= MAX_AREA && DistinctPaths(s.files)
    && forall i :: 0 <= i < |s.files| ==> PathBelongs(s.area, s.files[i].path) && |s.files[i].content| <= MAX_FILE
  }

  /** FindFileByPath */
  function FindFile(files: seq<File>, path: string): (r: Option<File>)
    ensures r.Some? ==> r.value in files && r.value.path == path
    ensures r.None? ==> forall f :: f in files ==> f.path != path
  {
    if files == [] then None
    else if files[0].path == path then Some(files[0])
    else FindFile(files[1..], path)
  }
}

module ConfigRegistry {
  import opened ConfigText
  import opened ConfigDetect

  datatype Transform = TextHeader | ConfigBlockHeader | CmdlineMarker | ResetDefaults | ResetConfigBlock | ResetCmdlineKeys
  datatype Migration = Migration(id: string, area: Area, from: nat, to: nat, lossy: bool, transform: Transform)

  const MAX_ID: nat := 64

  /** kCompiledMigrations */
  const COMPILED: seq<Migration> :=
    [ Migration("machines-v1-to-v2-header", Machines, 1, 2, false, TextHeader),
      Migration("config-managed-v1-to-v2-header", ConfigManagedBlock, 1, 2, false, ConfigBlockHeader),
      Migration("cmdline-managed-v1-to-v2-marker", CmdlineManagedKeys, 1, 2, false, CmdlineMarker),
      Migration("network-v1-to-v2-marker", Network, 1, 2, false, CmdlineMarker),
      Migration("settings-v1-to-v2-header", Settings, 1, 2, false, TextHeader),
      Migration("machines-v1-to-v2-reset", Machines, 1, 2, true, ResetDefaults),
      Migration("config-managed-v1-to-v2-reset", ConfigManagedBlock, 1, 2, true, ResetConfigBlock),
      Migration("cmdline-managed-v1-to-v2-reset", CmdlineManagedKeys, 1, 2, true, ResetCmdlineKeys),
      Migration("network-v1-to-v2-reset", Network, 1, 2, true, ResetCmdlineKeys),
      Migration("settings-v1-to-v2-reset", Settings, 1, 2, true, ResetDefaults),
      Migration("update-state-v1-to-v2-reset", UpdateState, 1, 2, true, ResetDefaults) ]

  function FindIn(ms: seq<Migration>, id: string): (r: Option<Migration>)
    ensures r.Some? ==> r.value in ms && r.value.id == id
  {
    if ms == [] then None else if ms[0].id == id then Some(ms[0]) else FindIn(ms[1..], id)
  }

  /** FindCompiledMigration */
  function FindCompiled(id: string): (r: Option<Migration>)
    ensures r.Some? ==> r.value in COMPILED && r.value.id == id
  {
    if |id| == 0 || |id| > MAX_ID then None else FindIn(COMPILED, id)
  }

  /** What the registry offers: each transformation for the areas it can serve. */
  predicate Offers(m: Migration) {
    && !m.area.UnknownArea? && m.from == 1 && m.to == 2
    && match m.transform
       case TextHeader => !m.lossy && (m.area.Machines? || m.area.Settings?)
       case ConfigBlockHeader => !m.lossy && m.area.ConfigManagedBlock?
       case CmdlineMarker => !m.lossy && (m.area.CmdlineManagedKeys? || m.area.Network?)
       case ResetDefaults => m.lossy && (m.area.Machines? || m.area.Settings? || m.area.UpdateState?)
       case ResetConfigBlock => m.lossy && m.area.ConfigManagedBlock?
       case ResetCmdlineKeys => m.lossy && (m.area.CmdlineManagedKeys? || m.area.Network?)
  }

  lemma CompiledOffers(m: Migration)
    requires m in COMPILED
    ensures Offers(m)
  {
  }
}

module ConfigApply {
  import opened ConfigText
  import opened ConfigDetect
  import opened ConfigHeaders
  import opened ConfigBlock
  import opened ConfigCmdline
  import opened ConfigPaths
  import opened ConfigRegistry

  /** DetectArea */
  function DetectArea(reader: StateReader, s: Snapshot): Detection {
    match s.area
    case Machines => DetectMachines(s.files)
    case ConfigManagedBlock => DetectConfigBlock(s.files)
    case CmdlineManagedKeys => DetectCmdline(CmdlineManagedKeys, s.files)
    case Network => DetectCmdline(Network, s.files)
    case Settings => DetectSettings(s.files)
    case UpdateState => DetectUpdateState(reader, s.files)
    case UnknownArea => Corrupt
  }

  datatype Status = InvalidInput | UnknownMigration | MigrationMismatch | SourceRejected | DefaultsRequired | DefaultsRejected
    | ResetConsentRequired | OutputCountMismatch | OutputTooSmall | AliasedOutput | TransformFailed | SemanticRevalidationFailed

  /** What the caller asks for; its output buffers come as sinks beside it. */
  datatype Request = Request(area: Area, id: string, sourceVersion: nat, targetVersion: nat, consent: bool,
                             source: Option<Snapshot>, defaults: Option<Snapshot>)
  datatype Sink = Sink(path: string, capacity: nat)
  datatype Outcome = Done(contents: seq<string>) | Rejected(status: Status)

  // ---------------------------------------------------------------- checks

  predicate DistinctSinks(sinks: seq<Sink>) {
    forall i, j :: 0 <= i < j < |sinks| ==> sinks[i].path != sinks[j].path
  }

  /** OutputPathsMatch */
  predicate SinksMatch(s: Snapshot, sinks: seq<Sink>) {
    && |sinks| == |s.files| && DistinctSinks(sinks)
    && forall i :: 0 <= i < |sinks| ==> PathBelongs(s.area, sinks[i].path) && FindFile(s.files, sinks[i].path).Some?
  }

  predicate RequestOk(req: Request, sinks: seq<Sink>) {
    && !req.area.UnknownArea? && req.source.Some? && 0 < |sinks| <= MAX_FILES
    && req.source.value.area == req.area && ShapeOk(req.source.value)
    && req.sourceVersion != 0 && req.targetVersion != 0
  }

  predicate DefaultsOk(reader: StateReader, req: Request) {
    && req.defaults.Some? && req.defaults.value.area == req.area && ShapeOk(req.defaults.value)
    && DetectArea(reader, req.defaults.value) == Valid(req.targetVersion)
  }

  datatype Choice = Chosen(m: Migration) | Refused(status: Status)

  /** The checks before any output is looked at. */
  function Admit(reader: StateReader, req: Request, sinks: seq<Sink>): Choice {
    if !RequestOk(req, sinks) then Refused(InvalidInput)
    else if FindCompiled(req.id).None? then Refused(UnknownMigration)
    else
      var m := FindCompiled(req.id).value;
      if m.area != req.area || m.from != req.sourceVersion || m.to != req.targetVersion then Refused(MigrationMismatch)
      else if DetectArea(reader, req.source.value) != Valid(req.sourceVersion) then Refused(SourceRejected)
      else if m.lossy && !req.consent then Refused(ResetConsentRequired)
      else if !m.lossy && req.consent then Refused(MigrationMismatch)
      else if m.lossy && req.defaults.None? then Refused(DefaultsRequired)
      else if m.lossy && !DefaultsOk(reader, req) then Refused(DefaultsRejected)
      else Chosen(m)
  }

  /** What the checks establish for the migration they choose. */
  predicate Admitted(reader: StateReader, req: Request, m: Migration) {
    && req.source.Some? && req.source.value.area == req.area && ShapeOk(req.source.value)
    && DetectArea(reader, req.source.value) == Valid(req.sourceVersion)
    && Offers(m) && m.area == req.area && m.from == req.sourceVersion && m.to == req.targetVersion
    && (m.lossy ==> DefaultsOk(reader, req))
  }

  lemma AdmitEstablishes(reader: StateReader, req: Request, sinks: seq<Sink>)
    requires Admit(reader, req, sinks).Chosen?
    ensures RequestOk(req, sinks) && Admitted(reader, req, Admit(reader, req, sinks).m)
  {
    hide DetectArea, ShapeOk, FindCompiled, Offers;
    CompiledOffers(Admit(reader, req, sinks).m);
  }

  // ---------------------------------------------------------------- transformations

  /** The one file of an area that lives in a part of a file. */
  function OnlyContent(s: Snapshot): string {
    if s.files == [] then "" else s.files[0].content
  }

  lemma OneFileAreas(reader: StateReader, s: Snapshot)
    requires DetectArea(reader, s).Valid? && (s.area.ConfigManagedBlock? || CmdlineArea(s.area))
    ensures |s.files| == 1 && (s.area.ConfigManagedBlock? ==> DetectBlock(OnlyContent(s)) == DetectArea(reader, s))
    ensures s.files[0].path == if s.area.ConfigManagedBlock? then "config.txt" else "cmdline.txt"
    ensures CmdlineArea(s.area) ==> DetectLine(s.area, OnlyContent(s)) == DetectArea(reader, s)
  {
    hide DetectBlock, DetectLine;
  }

  /** The file a transformation starts from. */
  function Expected(req: Request, m: Migration): Snapshot
    requires req.source.Some? && (m.lossy ==> req.defaults.Some?) && Offers(m)
  {
    if m.transform.ResetDefaults? then req.defaults.value else req.source.value
  }

  /** What the transformation writes to the file at `path`. */
  function NewContent(reader: StateReader, req: Request, m: Migration, path: string): string
    requires Admitted(reader, req, m) && FindFile(Expected(req, m).files, path).Some?
  {
    var was, v := OnlyContent(req.source.value), req.targetVersion;
    OneFile(reader, req, m);
    match m.transform
    case TextHeader => HeaderLine(req.area, v).raw + FindFile(req.source.value.files, path).value.content
    case ConfigBlockHeader => HeaderAdded(was, BoundsOf(BlockParts(was)), v)
    case CmdlineMarker => Rewritten(req.area, was, None, v)
    case ResetDefaults => FindFile(req.defaults.value.files, path).value.content
    case ResetConfigBlock =>
      var given := OnlyContent(req.defaults.value);
      Replaced(was, BoundsOf(BlockParts(was)), given, BoundsOf(BlockParts(given)))
    case ResetCmdlineKeys => Rewritten(req.area, was, Some(OnlyContent(req.defaults.value)), v)
  }

  lemma OneFile(reader: StateReader, req: Request, m: Migration)
    requires Admitted(reader, req, m)
    ensures m.transform.ConfigBlockHeader? || m.transform.ResetConfigBlock? ==> DetectBlock(OnlyContent(req.source.value)).Valid?
    ensures m.transform.ResetConfigBlock? ==> DetectBlock(OnlyContent(req.defaults.value)).Valid?
  {
    hide DetectArea, ShapeOk, DetectBlock, DetectLine;
    if req.area.ConfigManagedBlock? {
      OneFileAreas(reader, req.source.value);
      if m.lossy {
        OneFileAreas(reader, req.defaults.value);
      }
    }
  }

  predicate SinksServe(req: Request, m: Migration, sinks: seq<Sink>) {
    req.source.Some? && Offers(m) && (m.lossy ==> req.defaults.Some?) && SinksMatch(Expected(req, m), sinks)
  }

  function NewContents(reader: StateReader, req: Request, m: Migration, sinks: seq<Sink>): (r: seq<string>)
    requires Admitted(reader, req, m) && SinksServe(req, m, sinks)
    ensures |r| == |sinks| && forall i :: 0 <= i < |sinks| ==> r[i] == NewContent(reader, req, m, sinks[i].path)
  {
    seq(|sinks|, i requires 0 <= i < |sinks| => NewContent(reader, req, m, sinks[i].path))
  }

  // ---------------------------------------------------------------- outcome

  /** The sizes that are known before anything is written: a header needs 96 spare bytes, a copy its length. */
  predicate Roomy(req: Request, m: Migration, sinks: seq<Sink>)
    requires SinksServe(req, m, sinks)
  {
    forall i :: 0 <= i < |sinks| ==>
      var size := |FindFile(Expected(req, m).files, sinks[i].path).value.content|;
      && (m.transform.TextHeader? ==> size + 96 <= sinks[i].capacity)
      && (m.transform.ResetDefaults? ==> size <= sinks[i].capacity)
  }

  predicate AllFit(contents: seq<string>, sinks: seq<Sink>)
    requires |contents| == |sinks|
  {
    forall i :: 0 <= i < |sinks| ==> |contents[i]| <= sinks[i].capacity
  }

  function Written(sinks: seq<Sink>, contents: seq<string>): (r: seq<File>)
    requires |contents| == |sinks|
    ensures |r| == |sinks| && forall i :: 0 <= i < |r| ==> r[i] == File(sinks[i].path, contents[i])
  {
    seq(|sinks|, i requires 0 <= i < |sinks| => File(sinks[i].path, contents[i]))
  }

  /** RevalidateOutputs */
  predicate Revalidates(reader: StateReader, req: Request, files: seq<File>) {
    ShapeOk(Snapshot(req.area, files)) && DetectArea(reader, Snapshot(req.area, files)) == Valid(req.targetVersion)
  }

  function WriteOutcome(reader: StateReader, req: Request, m: Migration, sinks: seq<Sink>, independent: bool): Outcome
    requires Admitted(reader, req, m)
  {
    if !SinksMatch(Expected(req, m), sinks) then Rejected(OutputCountMismatch)
    else if !independent then Rejected(AliasedOutput)
    else if !Roomy(req, m, sinks) then Rejected(OutputTooSmall)
    else
      var contents := NewContents(reader, req, m, sinks);
      if !AllFit(contents, sinks) then
        Rejected(if exists i :: 0 <= i < |sinks| && sinks[i].capacity < |OnlyContent(req.source.value)|
                 then OutputTooSmall else TransformFailed)
      else if !Revalidates(reader, req, Written(sinks, contents)) then Rejected(SemanticRevalidationFailed)
      else Done(contents)
  }

  /** ApplyConfigChange */
  function Apply(reader: StateReader, req: Request, sinks: seq<Sink>, independent: bool): Outcome {
    match Admit(reader, req, sinks)
    case Refused(status) => Rejected(status)
    case Chosen(m) =>
      AdmitEstablishes(reader, req, sinks);
      WriteOutcome(reader, req, m, sinks, independent)
  }

  // ---------------------------------------------------------------- every file has its sink

  function PathSet(files: seq<File>): set<string> { set f | f in files :: f.path }
  function SinkSet(sinks: seq<Sink>): set<string> { set k | k in sinks :: k.path }

  lemma {:induction false} PathSetSize(files: seq<File>)
    requires DistinctPaths(files)
    ensures |PathSet(files)| == |files|
  {
    if files != [] {
      var front, last := files[..|files| - 1], files[|files| - 1];
      assert files == front + [last];
      PathSetSize(front);
      assert PathSet(files) == PathSet(front) + {last.path};
      assert last.path !in PathSet(front);
    }
  }

  lemma {:induction false} SinkSetSize(sinks: seq<Sink>)
    requires DistinctSinks(sinks)
    ensures |SinkSet(sinks)| == |sinks|
  {
    if sinks != [] {
      var front, last := sinks[..|sinks| - 1], sinks[|sinks| - 1];
      assert sinks == front + [last];
      SinkSetSize(front);
      assert SinkSet(sinks) == SinkSet(front) + {last.path};
      assert last.path !in SinkSet(front);
    }
  }

  lemma SubsetOfSameSize<T>(a: set<T>, b: set<T>)
    requires a <= b && |a| == |b|
    ensures a == b
  {
    assert b == a + (b - a);
  }

  lemma EveryFileHasSink(s: Snapshot, sinks: seq<Sink>)
    requires ShapeOk(s) && SinksMatch(s, sinks)
    ensures forall f :: f in s.files ==> exists i :: 0 <= i < |sinks| && sinks[i].path == f.path
  {
    hide PathBelongs;
    PathSetSize(s.files);
    SinkSetSize(sinks);
    forall p | p in SinkSet(sinks)
      ensures p in PathSet(s.files)
    {
      var i :| 0 <= i < |sinks| && sinks[i].path == p;
    }
    SubsetOfSameSize(SinkSet(sinks), PathSet(s.files));
    forall f | f in s.files
      ensures exists i :: 0 <= i < |sinks| && sinks[i].path == f.path
    {
      assert f.path in SinkSet(sinks);
    }
  }

  lemma {:induction false} FindFileFinds(files: seq<File>, f: File)
    requires DistinctPaths(files) && f in files
    ensures FindFile(files, f.path) == Some(f)
  {
    if files[0] != f {
      assert f in files[1..];
      FindFileFinds(files[1..], f);
    }
  }

  // ---------------------------------------------------------------- exactly when the outputs are accepted

  /** The source has no explicit text-schema header. */
  predicate Headerless(s: Snapshot) {
    forall f :: f in s.files ==> !HasHeader(s.area, Split(f.content).lines)
  }

  predicate SizesOk(sinks: seq<Sink>, contents: seq<string>)
    requires |contents| == |sinks|
  {
    (forall i :: 0 <= i < |contents| ==> |contents[i]| <= MAX_FILE) && Total(Written(sinks, contents)) <= MAX_AREA
  }

  /** Room under the size, line and token limits. */
  predicate WithinLimits(reader: StateReader, req: Request, m: Migration, sinks: seq<Sink>)
    requires Admitted(reader, req, m) && SinksServe(req, m, sinks)
  {
    && SizesOk(sinks, NewContents(reader, req, m, sinks))
    && (CmdlineArea(req.area) ==>
          RewriteFits(req.area, OnlyContent(req.source.value),
                      if m.lossy then Some(OnlyContent(req.defaults.value)) else None, req.targetVersion))
  }

  lemma WrittenShape(s: Snapshot, sinks: seq<Sink>, contents: seq<string>)
    requires ShapeOk(s) && SinksMatch(s, sinks) && |contents| == |sinks|
    ensures ShapeOk(Snapshot(s.area, Written(sinks, contents))) <==> SizesOk(sinks, contents)
  {
    hide PathBelongs, FindFile, Total;
    var w := Written(sinks, contents);
    if SizesOk(sinks, contents) {
      assert DistinctPaths(w);
    }
    if ShapeOk(Snapshot(s.area, w)) {
      assert forall i :: 0 <= i < |contents| ==> |w[i].content| == |contents[i]|;
    }
  }

  lemma MainHasSink(s: Snapshot, sinks: seq<Sink>, contents: seq<string>, path: string)
    requires ShapeOk(s) && SinksMatch(s, sinks) && |contents| == |sinks|
    requires exists i :: 0 <= i < |s.files| && s.files[i].path == path
    ensures exists i :: 0 <= i < |sinks| && Written(sinks, contents)[i].path == path
  {
    hide PathBelongs, FindFile, ShapeOk, SinksMatch;
    EveryFileHasSink(s, sinks);
    var i :| 0 <= i < |s.files| && s.files[i].path == path;
    assert s.files[i] in s.files;
    var k :| 0 <= k < |sinks| && sinks[k].path == s.files[i].path;
    assert Written(sinks, contents)[k].path == path;
  }

  /** The file that goes to a sink. */
  function Feed(s: Snapshot, sinks: seq<Sink>, i: nat): (f: File)
    requires SinksMatch(s, sinks) && i < |sinks|
    ensures f in s.files && f.path == sinks[i].path
  {
    FindFile(s.files, sinks[i].path).value
  }

  lemma FeedReaches(s: Snapshot, sinks: seq<Sink>, f: File)
    requires ShapeOk(s) && SinksMatch(s, sinks) && f in s.files
    ensures exists i :: 0 <= i < |sinks| && Feed(s, sinks, i) == f
  {
    hide PathBelongs, Total, FindFile;
    EveryFileHasSink(s, sinks);
    var i :| 0 <= i < |sinks| && sinks[i].path == f.path;
    FindFileFinds(s.files, f);
    assert Feed(s, sinks, i) == f;
  }

  lemma HeaderlessFeeds(s: Snapshot, sinks: seq<Sink>)
    requires ShapeOk(s) && SinksMatch(s, sinks)
    ensures Headerless(s) <==> forall i :: 0 <= i < |sinks| ==> !HasHeader(s.area, Split(Feed(s, sinks, i).content).lines)
  {
    hide ShapeOk, SinksMatch, HasHeader, Split;
    forall f | f in s.files
      ensures exists i :: 0 <= i < |sinks| && Feed(s, sinks, i) == f
    {
      FeedReaches(s, sinks, f);
    }
  }

  /** Header lines in front of every file of a text area. */
  predicate Prefixed(s: Snapshot, sinks: seq<Sink>, v: nat, contents: seq<string>) {
    && |contents| == |sinks| && SinksMatch(s, sinks)
    && forall i :: 0 <= i < |sinks| ==> contents[i] == HeaderLine(s.area, v).raw + Feed(s, sinks, i).content
  }

  predicate Short(contents: seq<string>) {
    forall i :: 0 <= i < |contents| ==> |contents[i]| <= MAX_FILE
  }

  lemma MachinesGainHeaders(s: Snapshot, sinks: seq<Sink>, v: nat, contents: seq<string>)
    requires s.area == Machines && ShapeOk(s) && 0 < v <= UINT32_MAX && Prefixed(s, sinks, v, contents) && DetectMachines(s.files) == Valid(1)
    ensures DetectMachines(Written(sinks, contents)) == Valid(v) <==> Short(contents) && Headerless(s)
  {
    hide ShapeOk, SinksMatch, HasHeader, Split, DetectMachineFile, HeaderLine, DetectMachines, Headerless, FindFile, Feed;
    MachinesExact(s.files, 1);
    MachinesExact(Written(sinks, contents), v);
    MainHasSink(s, sinks, contents, "machines.ini");
    HeaderlessFeeds(s, sinks);
    forall i | 0 <= i < |sinks|
      ensures DetectMachineFile(contents[i]) == Valid(v)
         <==> |contents[i]| <= MAX_FILE && !HasHeader(Machines, Split(Feed(s, sinks, i).content).lines)
    {
      var f := Feed(s, sinks, i);
      var k :| 0 <= k < |s.files| && s.files[k] == f;
      MachineFileGainsHeader(f.content, v);
    }
  }

  lemma SettingsGainHeaders(s: Snapshot, sinks: seq<Sink>, v: nat, contents: seq<string>)
    requires s.area == Settings && ShapeOk(s) && 0 < v <= UINT32_MAX && Prefixed(s, sinks, v, contents) && DetectSettings(s.files) == Valid(1)
    ensures DetectSettings(Written(sinks, contents)) == Valid(v) <==> Short(contents) && Headerless(s)
  {
    hide ShapeOk, SinksMatch, HasHeader, Split, DetectSettingsFile, HeaderLine, DetectSettings, Headerless, FindFile, Feed;
    SettingsExact(s.files, 1);
    SettingsExact(Written(sinks, contents), v);
    SameCount(s, sinks);
    HeaderlessFeeds(s, sinks);
    forall i | 0 <= i < |sinks|
      ensures DetectSettingsFile(contents[i]) == Valid(v)
         <==> |contents[i]| <= MAX_FILE && !HasHeader(Settings, Split(Feed(s, sinks, i).content).lines)
    {
      var f := Feed(s, sinks, i);
      var k :| 0 <= k < |s.files| && s.files[k] == f;
      SettingsFileGainsHeader(f.content, v);
    }
  }

  lemma SameCount(s: Snapshot, sinks: seq<Sink>)
    requires SinksMatch(s, sinks)
    ensures |sinks| == |s.files|
  {
  }

  // ---------------------------------------------------------------- transformation by transformation

  lemma TextHeaderExact(reader: StateReader, req: Request, m: Migration, sinks: seq<Sink>)
    requires Admitted(reader, req, m) && SinksServe(req, m, sinks) && m.transform.TextHeader?
    ensures var contents := NewContents(reader, req, m, sinks);
            Revalidates(reader, req, Written(sinks, contents)) <==> SizesOk(sinks, contents) && Headerless(req.source.value)
  {
    hide ShapeOk, SinksMatch, HeaderLine, DetectMachines, DetectSettings, Headerless, FindFile;
    var s, contents := req.source.value, NewContents(reader, req, m, sinks);
    WrittenShape(s, sinks, contents);
    assert Prefixed(s, sinks, 2, contents);
    if req.area.Machines? {
      MachinesGainHeaders(s, sinks, 2, contents);
    } else {
      SettingsGainHeaders(s, sinks, 2, contents);
    }
  }

  lemma OneSink(s: Snapshot, sinks: seq<Sink>)
    requires SinksMatch(s, sinks) && |s.files| == 1
    ensures |sinks| == 1 && sinks[0].path == s.files[0].path
  {
    hide PathBelongs;
    assert FindFile(s.files, sinks[0].path).Some?;
  }

  lemma OnlyFileHeaderless(s: Snapshot)
    requires |s.files| == 1
    ensures Headerless(s) <==> !HasHeader(s.area, Split(OnlyContent(s)).lines)
  {
    hide HasHeader, Split;
    assert s.files[0] in s.files;
  }

  /** Re-detection of a single written file. */
  lemma OneFileDetection(reader: StateReader, s: Snapshot, sinks: seq<Sink>, contents: seq<string>)
    requires ShapeOk(s) && SinksMatch(s, sinks) && |contents| == |sinks|
    requires DetectArea(reader, s).Valid? && (s.area.ConfigManagedBlock? || CmdlineArea(s.area))
    ensures |contents| == 1
    ensures DetectArea(reader, Snapshot(s.area, Written(sinks, contents)))
         == if s.area.ConfigManagedBlock? then DetectBlock(contents[0]) else DetectLine(s.area, contents[0])
  {
    hide ShapeOk, DetectBlock, DetectLine, SinksMatch;
    OneFileAreas(reader, s);
    OneSink(s, sinks);
    assert Written(sinks, contents) == [File(s.files[0].path, contents[0])];
  }

  lemma BlockHeaderExact(reader: StateReader, req: Request, m: Migration, sinks: seq<Sink>)
    requires Admitted(reader, req, m) && SinksServe(req, m, sinks) && m.transform.ConfigBlockHeader?
    ensures var contents := NewContents(reader, req, m, sinks);
            Revalidates(reader, req, Written(sinks, contents)) <==> SizesOk(sinks, contents) && Headerless(req.source.value)
  {
    hide ShapeOk, SinksMatch, HeaderLine, DetectBlock, Headerless, DetectArea, BlockParts, HasHeader, Split;
    var s, contents := req.source.value, NewContents(reader, req, m, sinks);
    WrittenShape(s, sinks, contents);
    OneFileAreas(reader, s);
    OneFileDetection(reader, s, sinks, contents);
    OnlyFileHeaderless(s);
    HeaderOfFile(OnlyContent(s));
    HeaderAddedRedetects(OnlyContent(s), 2);
  }

  lemma BlockResetExact(reader: StateReader, req: Request, m: Migration, sinks: seq<Sink>)
    requires Admitted(reader, req, m) && SinksServe(req, m, sinks) && m.transform.ResetConfigBlock?
    ensures var contents := NewContents(reader, req, m, sinks);
            Revalidates(reader, req, Written(sinks, contents)) <==> SizesOk(sinks, contents)
  {
    hide ShapeOk, SinksMatch, DetectBlock, DetectArea, BlockParts, Split;
    var s, contents := req.source.value, NewContents(reader, req, m, sinks);
    WrittenShape(s, sinks, contents);
    OneFileAreas(reader, s);
    OneFileAreas(reader, req.defaults.value);
    OneFileDetection(reader, s, sinks, contents);
    ReplacedRedetects(OnlyContent(s), OnlyContent(req.defaults.value));
  }

  lemma CmdlineExact(reader: StateReader, req: Request, m: Migration, sinks: seq<Sink>)
    requires Admitted(reader, req, m) && SinksServe(req, m, sinks) && CmdlineArea(req.area)
    ensures Revalidates(reader, req, Written(sinks, NewContents(reader, req, m, sinks))) <==> WithinLimits(reader, req, m, sinks)
  {
    hide ShapeOk, SinksMatch, DetectLine, DetectArea, Rewritten, LineTokens, RewriteFits;
    var s, contents := req.source.value, NewContents(reader, req, m, sinks);
    WrittenShape(s, sinks, contents);
    OneFileAreas(reader, s);
    OneFileDetection(reader, s, sinks, contents);
    if m.lossy {
      OneFileAreas(reader, req.defaults.value);
      RewriteExact(req.area, OnlyContent(s), Some(OnlyContent(req.defaults.value)), 2);
    } else {
      RewriteExact(req.area, OnlyContent(s), None, 2);
    }
  }

  lemma {:induction false} LastAtFinds(files: seq<File>, f: File)
    requires DistinctPaths(files) && f in files
    ensures LastAt(files, f.path) == Some(f.content)
  {
    var front, last := files[..|files| - 1], files[|files| - 1];
    assert files == front + [last];
    if f != last {
      assert f in front;
      LastAtFinds(front, f);
    }
  }

  lemma {:induction false} LastAtIsThere(files: seq<File>, path: string)
    ensures LastAt(files, path).Some? ==> File(path, LastAt(files, path).value) in files
  {
    if files != [] && files[|files| - 1].path != path {
      LastAtIsThere(files[..|files| - 1], path);
    }
  }

  lemma SameFilesSameLast(s: seq<File>, t: seq<File>, path: string)
    requires DistinctPaths(s) && DistinctPaths(t) && forall f :: f in s <==> f in t
    ensures LastAt(s, path) == LastAt(t, path)
  {
    hide LastAt, DistinctPaths;
    LastAtIsThere(s, path);
    LastAtIsThere(t, path);
    if LastAt(s, path).Some? {
      LastAtFinds(t, File(path, LastAt(s, path).value));
    } else if LastAt(t, path).Some? {
      LastAtFinds(s, File(path, LastAt(t, path).value));
    }
  }

  /** The update state does not depend on the order its files are listed in. */
  lemma SameFilesSameState(reader: StateReader, s: seq<File>, t: seq<File>)
    requires DistinctPaths(s) && DistinctPaths(t) && |s| == |t| && forall f :: f in s <==> f in t
    ensures DetectUpdateState(reader, s) == DetectUpdateState(reader, t)
  {
    hide StateVerdict, LastAt;
    SameFilesSameLast(s, t, BUILD_PATH);
    SameFilesSameLast(s, t, JOURNAL_A);
    SameFilesSameLast(s, t, JOURNAL_B);
  }

  /** Copied defaults are the same files, in the order of the outputs. */
  lemma CopiedFiles(reader: StateReader, req: Request, m: Migration, sinks: seq<Sink>)
    requires Admitted(reader, req, m) && SinksServe(req, m, sinks) && m.transform.ResetDefaults?
    ensures var d, w := req.defaults.value, Written(sinks, NewContents(reader, req, m, sinks));
            DistinctPaths(w) && |w| == |d.files| && forall f :: f in w <==> f in d.files
  {
    var d, contents := req.defaults.value, NewContents(reader, req, m, sinks);
    var w := Written(sinks, contents);
    hide ShapeOk, DetectArea, FindFile, PathBelongs;
    forall i | 0 <= i < |sinks|
      ensures w[i] == Feed(d, sinks, i)
    {
    }
    forall f
      ensures f in w <==> f in d.files
    {
      if f in d.files {
        FeedReaches(d, sinks, f);
      }
    }
  }

  lemma CopyExact(reader: StateReader, req: Request, m: Migration, sinks: seq<Sink>)
    requires Admitted(reader, req, m) && SinksServe(req, m, sinks) && m.transform.ResetDefaults?
    ensures var contents := NewContents(reader, req, m, sinks);
            Revalidates(reader, req, Written(sinks, contents)) <==> SizesOk(sinks, contents)
  {
    hide ShapeOk, SinksMatch, DetectMachines, DetectSettings, DetectUpdateState, FindFile, DetectMachineFile, DetectSettingsFile;
    var d, contents := req.defaults.value, NewContents(reader, req, m, sinks);
    WrittenShape(d, sinks, contents);
    SameCount(d, sinks);
    CopiedFiles(reader, req, m, sinks);
    if req.area.UpdateState? {
      ShapeDistinct(d);
      SameFilesSameState(reader, Written(sinks, contents), d.files);
      return;
    }
    var w := Written(sinks, contents);
    forall i | 0 <= i < |w|
      ensures exists k :: 0 <= k < |d.files| && w[i].content == d.files[k].content
    {
      assert w[i] in w;
      var k :| 0 <= k < |d.files| && d.files[k] == w[i];
    }
    if req.area.Machines? {
      MachinesExact(d.files, 2);
      MachinesExact(Written(sinks, contents), 2);
      MainHasSink(d, sinks, contents, "machines.ini");
    } else {
      SettingsExact(d.files, 2);
      SettingsExact(Written(sinks, contents), 2);
    }
  }

  lemma ShapeDistinct(s: Snapshot)
    requires ShapeOk(s)
    ensures DistinctPaths(s.files)
  {
  }

  /** The condition, apart from room, under which a transformation's output is accepted. */
  predicate Transformable(req: Request, m: Migration) {
    m.transform.TextHeader? || m.transform.ConfigBlockHeader? ==> req.source.Some? && Headerless(req.source.value)
  }

  /**
   Every request that passes the checks is carried out exactly when there is room and, for the header migrations, the source
   has no explicit header yet.
   */
  lemma ApplyExact(reader: StateReader, req: Request, sinks: seq<Sink>)
    requires Admit(reader, req, sinks).Chosen?
    requires SinksServe(req, Admit(reader, req, sinks).m, sinks)
    ensures Admitted(reader, req, Admit(reader, req, sinks).m)
    ensures var m := Admit(reader, req, sinks).m;
            Apply(reader, req, sinks, true).Done? <==>
              && Transformable(req, m) && WithinLimits(reader, req, m, sinks)
              && Roomy(req, m, sinks) && AllFit(NewContents(reader, req, m, sinks), sinks)
  {
    hide ShapeOk, SinksMatch, DetectArea, Headerless, NewContents, RewriteFits, SizesOk, AllFit, Roomy, Written, Admit;
    AdmitEstablishes(reader, req, sinks);
    var m := Admit(reader, req, sinks).m;
    match m.transform {
      case TextHeader => TextHeaderExact(reader, req, m, sinks);
      case ConfigBlockHeader => BlockHeaderExact(reader, req, m, sinks);
      case ResetConfigBlock => BlockResetExact(reader, req, m, sinks);
      case ResetDefaults => CopyExact(reader, req, m, sinks);
      case CmdlineMarker => CmdlineExact(reader, req, m, sinks);
      case ResetCmdlineKeys => CmdlineExact(reader, req, m, sinks);
    }
  }
}
