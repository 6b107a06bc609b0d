/**
 Which status ApplyConfigChange gives (src/update/config_migration.cpp): every refusal
 by its own condition, and the names of the compiled registry.
 */
module ConfigStatus {
  import opened ConfigText
  import opened ConfigDetect
  import opened ConfigCmdline
  import opened ConfigPaths
  import opened ConfigRegistry
  import opened ConfigApply
  import opened ConfigLossless

  // ---------------------------------------------------------------- the registry

  function Stem(a: Area): string {
    match a
    case Machines => "machines"
    case ConfigManagedBlock => "config-managed"
    case CmdlineManagedKeys => "cmdline-managed"
    case Network => "network"
    case Settings => "settings"
    case UpdateState => "update-state"
    case UnknownArea => ""
  }

  function NameOf(a: Area, lossy: bool): string {
    Stem(a) + "-v1-to-v2-" + if lossy then "reset" else if CmdlineArea(a) then "marker" else "header"
  }

  lemma ResetNames()
    ensures NameOf(Machines, true) == "machines-v1-to-v2-reset"
    ensures NameOf(ConfigManagedBlock, true) == "config-managed-v1-to-v2-reset"
    ensures NameOf(CmdlineManagedKeys, true) == "cmdline-managed-v1-to-v2-reset"
    ensures NameOf(Network, true) == "network-v1-to-v2-reset"
    ensures NameOf(Settings, true) == "settings-v1-to-v2-reset"
    ensures NameOf(UpdateState, true) == "update-state-v1-to-v2-reset"
  {
  }

  lemma LosslessNames()
    ensures NameOf(Machines, false) == "machines-v1-to-v2-header"
    ensures NameOf(ConfigManagedBlock, false) == "config-managed-v1-to-v2-header"
    ensures NameOf(CmdlineManagedKeys, false) == "cmdline-managed-v1-to-v2-marker"
    ensures NameOf(Network, false) == "network-v1-to-v2-marker"
    ensures NameOf(Settings, false) == "settings-v1-to-v2-header"
  {
  }

  /** An identifier names its area and what it does to it. */
  lemma RegistryNames(m: Migration)
    requires m in COMPILED
    ensures m.id == NameOf(m.area, m.lossy)
  {
    hide NameOf;
    ResetNames();
    LosslessNames();
  }

  /** Where the registry has an area's reset and its lossless migration. */
  function PlaceOf(a: Area, lossy: bool): nat
    requires !a.UnknownArea? && (lossy || !a.UpdateState?)
  {
    (match a
     case Machines => 0
     case ConfigManagedBlock => 1
     case CmdlineManagedKeys => 2
     case Network => 3
     case Settings => 4
     case UpdateState => 5)
    + if lossy then 5 else 0
  }

  lemma RegistryHas(a: Area, lossy: bool)
    requires !a.UnknownArea? && (lossy || !a.UpdateState?)
    ensures PlaceOf(a, lossy) < |COMPILED| && COMPILED[PlaceOf(a, lossy)].area == a && COMPILED[PlaceOf(a, lossy)].lossy == lossy
  {
  }

  /** Some entry serves the area, with or without loss. */
  predicate Served(a: Area, lossy: bool) {
    exists i :: 0 <= i < |COMPILED| && COMPILED[i].area == a && COMPILED[i].lossy == lossy
  }

  /** Every area can be reset, and every area but the update state migrated without loss. */
  lemma RegistryServes(a: Area)
    requires !a.UnknownArea?
    ensures Served(a, true) && (Served(a, false) <==> !a.UpdateState?)
  {
    RegistryHas(a, true);
    if !a.UpdateState? {
      RegistryHas(a, false);
    } else {
      forall i | 0 <= i < |COMPILED|
        ensures COMPILED[i].area.UpdateState? ==> COMPILED[i].lossy
      {
        CompiledOffers(COMPILED[i]);
      }
    }
  }

  // ---------------------------------------------------------------- refusals before the outputs

  /** The request names this compiled entry. */
  predicate Names(req: Request, m: Migration) {
    m in COMPILED && m.id == req.id
  }

  predicate Fits(req: Request, m: Migration) {
    m.area == req.area && m.from == req.sourceVersion && m.to == req.targetVersion
  }

  predicate SourceIs(reader: StateReader, req: Request) {
    req.source.Some? && DetectArea(reader, req.source.value) == Valid(req.sourceVersion)
  }

  lemma NamesOne(req: Request, m: Migration)
    requires Names(req, m)
    ensures FindCompiled(req.id) == Some(m)
  {
    CompiledIsFound(m);
  }

  /** Without a compiled entry of that name a well-formed request is an unknown migration, and only then. */
  lemma UnknownExact(reader: StateReader, req: Request, sinks: seq<Sink>)
    ensures Admit(reader, req, sinks) == Refused(InvalidInput) <==> !RequestOk(req, sinks)
    ensures Admit(reader, req, sinks) == Refused(UnknownMigration) <==> RequestOk(req, sinks) && !exists m :: Names(req, m)
  {
    hide DetectArea, RequestOk, DefaultsOk, FindCompiled, Names;
    FoundIsNamed(req);
  }

  lemma FoundIsNamed(req: Request)
    ensures FindCompiled(req.id).Some? <==> exists m :: Names(req, m)
  {
    hide FindCompiled;
    if exists m :: Names(req, m) {
      var m :| Names(req, m);
      NamesOne(req, m);
    }
    if FindCompiled(req.id).Some? {
      assert Names(req, FindCompiled(req.id).value);
    }
  }

  /** A request for a compiled entry: what it takes to be admitted, and what each refusal means. */
  lemma RefusalsExact(reader: StateReader, req: Request, sinks: seq<Sink>, m: Migration)
    requires RequestOk(req, sinks) && Names(req, m)
    ensures var c := Admit(reader, req, sinks);
            && (c == Chosen(m) <==>
                  Fits(req, m) && SourceIs(reader, req) && (req.consent <==> m.lossy) && (m.lossy ==> DefaultsOk(reader, req)))
            && (c == Refused(MigrationMismatch) <==> !Fits(req, m) || (SourceIs(reader, req) && req.consent && !m.lossy))
            && (c == Refused(SourceRejected) <==> Fits(req, m) && !SourceIs(reader, req))
            && (c == Refused(ResetConsentRequired) <==> Fits(req, m) && SourceIs(reader, req) && m.lossy && !req.consent)
            && (c == Refused(DefaultsRequired) <==>
                  Fits(req, m) && SourceIs(reader, req) && m.lossy && req.consent && req.defaults.None?)
            && (c == Refused(DefaultsRejected) <==>
                  Fits(req, m) && SourceIs(reader, req) && m.lossy && req.consent && req.defaults.Some? && !DefaultsOk(reader, req))
            && (c.Refused? ==>
                  c.status in {MigrationMismatch, SourceRejected, ResetConsentRequired, DefaultsRequired, DefaultsRejected})
  {
    AdmitSteps(reader, req, sinks, m);
    hide Admit, RequestOk, DefaultsOk, Fits, SourceIs, Names;
  }

  /** The checks on a request that names m, in their order. */
  lemma AdmitSteps(reader: StateReader, req: Request, sinks: seq<Sink>, m: Migration)
    requires RequestOk(req, sinks) && Names(req, m)
    ensures DefaultsOk(reader, req) ==> req.defaults.Some?
    ensures Admit(reader, req, sinks)
         == if !Fits(req, m) then Refused(MigrationMismatch)
            else if !SourceIs(reader, req) then Refused(SourceRejected)
            else if m.lossy && !req.consent then Refused(ResetConsentRequired)
            else if !m.lossy && req.consent then Refused(MigrationMismatch)
            else if m.lossy && req.defaults.None? then Refused(DefaultsRequired)
            else if m.lossy && !DefaultsOk(reader, req) then Refused(DefaultsRejected)
            else Chosen(m)
  {
    NamesOne(req, m);
    assert req.source.Some?;
    hide DetectArea, RequestOk, FindCompiled, Names, ShapeOk;
  }

  // ---------------------------------------------------------------- refusals of the outputs

  /** A copy or a header that a sink has no room for: the header takes 96 bytes whatever it needs. */
  predicate TooSmallFor(req: Request, m: Migration, sinks: seq<Sink>)
    requires SinksServe(req, m, sinks)
  {
    exists i :: 0 <= i < |sinks| &&
      var size := |FindFile(Expected(req, m).files, sinks[i].path).value.content|;
      (m.transform.TextHeader? && sinks[i].capacity < size + 96) || (m.transform.ResetDefaults? && sinks[i].capacity < size)
  }

  predicate SmallerThanSource(req: Request, sinks: seq<Sink>)
    requires req.source.Some?
  {
    exists i :: 0 <= i < |sinks| && sinks[i].capacity < |OnlyContent(req.source.value)|
  }

  /** Once a request is admitted: each outcome of the writing half by its condition. */
  lemma WritingExact(reader: StateReader, req: Request, m: Migration, sinks: seq<Sink>, independent: bool)
    requires Admitted(reader, req, m)
    ensures var out := WriteOutcome(reader, req, m, sinks, independent);
            && (out == Rejected(OutputCountMismatch) <==> !SinksServe(req, m, sinks))
            && (SinksServe(req, m, sinks) ==>
                  var contents := NewContents(reader, req, m, sinks);
                  && (out == Rejected(AliasedOutput) <==> !independent)
                  && (independent ==>
                        && (out == Rejected(OutputTooSmall) <==>
                              TooSmallFor(req, m, sinks) || (!AllFit(contents, sinks) && SmallerThanSource(req, sinks)))
                        && (out == Rejected(TransformFailed) <==>
                              !TooSmallFor(req, m, sinks) && !AllFit(contents, sinks) && !SmallerThanSource(req, sinks))
                        && (out == Rejected(SemanticRevalidationFailed) <==>
                              !TooSmallFor(req, m, sinks) && AllFit(contents, sinks) && !Revalidates(reader, req, Written(sinks, contents)))
                        && (out == Done(contents) <==>
                              !TooSmallFor(req, m, sinks) && AllFit(contents, sinks) && Revalidates(reader, req, Written(sinks, contents)))))
  {
    hide DetectArea, ShapeOk, NewContent, AllFit, Revalidates, FindFile, PathBelongs, Offers;
    ExpectedGiven(reader, req, m);
    hide Admitted;
    if SinksServe(req, m, sinks) {
      RoomyExact(req, m, sinks);
      hide Roomy, TooSmallFor, SinksMatch;
    }
  }

  lemma ExpectedGiven(reader: StateReader, req: Request, m: Migration)
    requires Admitted(reader, req, m)
    ensures req.source.Some? && Offers(m) && (m.lossy ==> req.defaults.Some?)
  {
    hide DetectArea, ShapeOk;
  }

  lemma RoomyExact(req: Request, m: Migration, sinks: seq<Sink>)
    requires SinksServe(req, m, sinks)
    ensures Roomy(req, m, sinks) <==> !TooSmallFor(req, m, sinks)
  {
    hide PathBelongs, FindFile;
  }

  // ---------------------------------------------------------------- what a change writes

  lemma HeaderOfTwo()
    ensures HeaderLine(Settings, 2).raw == "# BMX-SCHEMA settings=2\n" && HeaderLine(Machines, 2).raw == "# BMX-SCHEMA machines=2\n"
  {
    assert Decimal(2) == "2";
    assert "# BMX-SCHEMA " + "settings" + "=" + "2" + "\n" == "# BMX-SCHEMA settings=2\n";
    assert "# BMX-SCHEMA " + "machines" + "=" + "2" + "\n" == "# BMX-SCHEMA machines=2\n";
  }

  /** A file at a path and its content. */
  predicate HasFile(files: seq<File>, path: string, content: string) {
    exists i :: 0 <= i < |files| && files[i] == File(path, content)
  }

  /** A header migration that is made loses nothing: every output is the header line and then its source file. */
  lemma HeaderMigrationWrites(reader: StateReader, req: Request, sinks: seq<Sink>, i: nat)
    requires Apply(reader, req, sinks, true).Done? && (req.area.Machines? || req.area.Settings?) && !req.consent
    requires i < |Apply(reader, req, sinks, true).contents|
    ensures |sinks| == |Apply(reader, req, sinks, true).contents| && req.source.Some?
    ensures exists content ::
              && HasFile(req.source.value.files, sinks[i].path, content)
              && Apply(reader, req, sinks, true).contents[i]
                 == (if req.area.Machines? then "# BMX-SCHEMA machines=2\n" else "# BMX-SCHEMA settings=2\n") + content
  {
    hide DetectArea, ShapeOk, Admit, HeaderLine, FindFile, PathBelongs, Revalidates, Roomy, AllFit;
    AdmitEstablishes(reader, req, sinks);
    MadeWithoutConsent(reader, req, sinks);
    HeaderOfTwo();
    var f := FindFile(req.source.value.files, sinks[i].path).value;
    var k :| 0 <= k < |req.source.value.files| && req.source.value.files[k] == f;
    assert HasFile(req.source.value.files, sinks[i].path, f.content);
  }

  lemma MadeWithoutConsent(reader: StateReader, req: Request, sinks: seq<Sink>)
    requires Admit(reader, req, sinks).Chosen?
    ensures Admit(reader, req, sinks).m.lossy == req.consent
  {
    hide DetectArea, RequestOk, FindCompiled, DefaultsOk;
  }

  /** A reset of a whole file writes the defaults' file of that path. */
  lemma ResetWrites(reader: StateReader, req: Request, sinks: seq<Sink>, i: nat)
    requires Apply(reader, req, sinks, true).Done? && req.consent
    requires req.area.Machines? || req.area.Settings? || req.area.UpdateState?
    requires i < |Apply(reader, req, sinks, true).contents|
    ensures |sinks| == |Apply(reader, req, sinks, true).contents| && req.defaults.Some?
    ensures HasFile(req.defaults.value.files, sinks[i].path, Apply(reader, req, sinks, true).contents[i])
  {
    hide DetectArea, ShapeOk, Admit, FindFile, PathBelongs, Revalidates, Roomy, AllFit;
    AdmitEstablishes(reader, req, sinks);
    MadeWithoutConsent(reader, req, sinks);
    var f := FindFile(req.defaults.value.files, sinks[i].path).value;
    var k :| 0 <= k < |req.defaults.value.files| && req.defaults.value.files[k] == f;
  }

  // ---------------------------------------------------------------- paths

  predicate PlainName(s: string) {
    forall i :: 0 <= i < |s| ==> s[i] != '/' && s[i] != '\\' && ' ' <= s[i] <= '~'
  }

  lemma {:induction false} PlainIsOneComponent(s: string)
    requires PlainName(s)
    ensures ComponentEnd(s) == |s|
  {
    if s != "" {
      PlainIsOneComponent(s[1..]);
    }
  }

  lemma PlainIsSafe(s: string)
    requires PlainName(s) && 3 <= |s| <= MAX_PATH
    ensures SafeRelativePath(s)
  {
    PlainIsOneComponent(s);
    assert s[..|s|] == s;
  }

  /** The settings family: settings, any short plain name, .txt. */
  lemma SettingsFamily(name: string)
    requires |name| + 12 <= MAX_PATH && forall i :: 0 <= i < |name| ==> SettingsNameChar(name[i])
    ensures PathBelongs(Settings, "settings" + name + ".txt")
  {
    var p := "settings" + name + ".txt";
    assert p[..8] == "settings" && p[|p| - 4..] == ".txt";
    forall i | 8 <= i < |p| - 4
      ensures p[i] == name[i - 8]
    {
    }
    forall i | 0 <= i < |p|
      ensures p[i] != '/' && p[i] != '\\' && ' ' <= p[i] <= '~'
    {
      if i >= |p| - 4 {
        assert p[i] == ".txt"[i - (|p| - 4)];
      } else if i < 8 {
        assert p[i] == "settings"[i];
      }
    }
    hide SafeRelativePath;
    PlainIsSafe(p);
  }

  /** And nothing else belongs to the area. */
  lemma OnlySettingsFamily(path: string)
    requires PathBelongs(Settings, path)
    ensures exists name :: path == "settings" + name + ".txt" && forall i :: 0 <= i < |name| ==> SettingsNameChar(name[i])
  {
    hide SafeRelativePath, SettingsNameChar;
    var name := path[8..|path| - 4];
    assert path == path[..8] + name + path[|path| - 4..];
    assert forall i :: 0 <= i < |name| ==> name[i] == path[i + 8];
    assert path == "settings" + name + ".txt";
  }

  /** The fixed files of the other text areas. */
  lemma FixedFiles(path: string)
    ensures PathBelongs(Machines, path) <==> path == "machines.ini" || path == "machines.defaults.ini" || path == "machines.local.ini"
    ensures PathBelongs(ConfigManagedBlock, path) <==> path == "config.txt"
    ensures PathBelongs(CmdlineManagedKeys, path) <==> path == "cmdline.txt"
    ensures PathBelongs(Network, path) <==> path == "cmdline.txt"
  {
    hide SafeRelativePath;
    PlainIsSafe("machines.ini");
    PlainIsSafe("machines.defaults.ini");
    PlainIsSafe("machines.local.ini");
    PlainIsSafe("config.txt");
    PlainIsSafe("cmdline.txt");
  }

  /** The files of the update state lie two directories down. */
  lemma StateFiles(path: string)
    ensures PathBelongs(UpdateState, path) <==>
              path == "BMX-BUILD.json" || path == ".bmx-update/transaction/journal.a" || path == ".bmx-update/transaction/journal.b"
  {
    BuildPathIsSafe();
    JournalPathsAreSafe();
    hide SafeRelativePath;
  }

  lemma BuildPathIsSafe()
    ensures SafeRelativePath("BMX-BUILD.json")
  {
    hide SafeRelativePath;
    PlainIsSafe("BMX-BUILD.json");
  }

  lemma JournalPathsAreSafe()
    ensures SafeRelativePath(".bmx-update/transaction/journal.a") && SafeRelativePath(".bmx-update/transaction/journal.b")
  {
    hide SafeRelativePath, PlainName;
    PlainParts();
    NestedIsSafe(".bmx-update", "transaction", "journal.a");
    NestedIsSafe(".bmx-update", "transaction", "journal.b");
    JournalPaths();
  }

  lemma PlainParts()
    ensures PlainName(".bmx-update") && PlainName("transaction") && PlainName("journal.a") && PlainName("journal.b")
  {
  }

  lemma JournalPaths()
    ensures ".bmx-update" + "/" + "transaction" + "/" + "journal.a" == ".bmx-update/transaction/journal.a"
    ensures ".bmx-update" + "/" + "transaction" + "/" + "journal.b" == ".bmx-update/transaction/journal.b"
  {
  }

  lemma {:induction false} ComponentBefore(c: string, rest: string)
    requires PlainName(c)
    ensures ComponentEnd(c + "/" + rest) == |c|
  {
    var s := c + "/" + rest;
    if c == "" {
      assert s[0] == '/';
    } else {
      assert s[0] == c[0] && s[1..] == c[1..] + "/" + rest;
      ComponentBefore(c[1..], rest);
    }
  }

  lemma NestedIsSafe(a: string, b: string, c: string)
    requires PlainName(a) && PlainName(b) && PlainName(c) && |a| > 2 && |b| > 2 && |c| > 2 && |a| + |b| + |c| + 2 <= MAX_PATH
    ensures SafeRelativePath(a + "/" + b + "/" + c)
  {
    hide ComponentEnd;
    var inner := b + "/" + c;
    var path := a + "/" + b + "/" + c;
    assert path == a + "/" + inner;
    ComponentBefore(a, inner);
    ComponentBefore(b, c);
    PlainIsOneComponent(c);
    assert path[..|a|] == a && path[|a| + 1..] == inner;
    assert inner[..|b|] == b && inner[|b| + 1..] == c && c[..|c|] == c;
    assert ComponentsOk(c) && ComponentsOk(inner);
  }
}
