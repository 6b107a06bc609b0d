/**
 Assessment of a configuration snapshot (src/update/config_migration.cpp): the signed
 declarations against the compiled registry, the classification of every area, and
 what the assessment promises about applying it.
 */
module ConfigAssess {
  import opened ConfigText
  import opened ConfigDetect
  import opened ConfigCmdline
  import opened ConfigPaths
  import opened ConfigRegistry
  import opened ConfigApply
  import opened ConfigLossless
  import opened AreaDigest
  import Consent

  type Classification = Consent.Classification

  /** SHA-256 over a byte string; None when hashing fails. */
  type Hasher = string -> Option<string>

  datatype Requirement = Requirement(area: Area, target: nat, accepted: seq<nat>)
  datatype Declared = Declared(id: string, area: Area, from: nat, to: nat, lossy: bool)
  datatype Registry = RegistryValid | RegistryInvalidInput | DuplicateDeclaration | NotCompiled | DeclarationMismatch | SchemaMismatch

  const AREAS: seq<Area> := [Machines, ConfigManagedBlock, CmdlineManagedKeys, Network, Settings, UpdateState]
  const MAX_DECLARED: nat := 64

  // ---------------------------------------------------------------- requirements

  /** RequirementIsValid */
  predicate RequirementOk(r: Requirement) {
    && !r.area.UnknownArea? && r.target != 0 && 0 < |r.accepted| <= 32 && r.target in r.accepted
    && forall i, j :: 0 <= i < j < |r.accepted| ==> r.accepted[i] != r.accepted[j]
  }

  predicate DistinctAreas(areas: seq<Area>) {
    forall i, j :: 0 <= i < j < |areas| ==> areas[i] != areas[j]
  }

  function AreasOf<T>(items: seq<T>, area: T -> Area): (r: seq<Area>)
    ensures |r| == |items| && forall i :: 0 <= i < |r| ==> r[i] == area(items[i])
  {
    seq(|items|, i requires 0 <= i < |items| => area(items[i]))
  }

  function RequiredArea(r: Requirement): Area { r.area }
  function SnapshotArea(s: Snapshot): Area { s.area }

  /** Every area has exactly one valid requirement. */
  predicate RequirementsOk(reqs: seq<Requirement>) {
    |reqs| == |AREAS| && (forall i :: 0 <= i < |reqs| ==> RequirementOk(reqs[i])) && DistinctAreas(AreasOf(reqs, RequiredArea))
  }

  function FindRequirement(reqs: seq<Requirement>, area: Area): (r: Option<Requirement>)
    ensures r.Some? ==> r.value in reqs && r.value.area == area
    ensures r.None? ==> forall q :: q in reqs ==> q.area != area
  {
    if reqs == [] then None else if reqs[0].area == area then Some(reqs[0]) else FindRequirement(reqs[1..], area)
  }

  function AreaSet(areas: seq<Area>): set<Area> { set a | a in areas }

  lemma {:induction false} AreaSetSize(areas: seq<Area>)
    requires DistinctAreas(areas)
    ensures |AreaSet(areas)| == |areas|
  {
    if areas != [] {
      var front, last := areas[..|areas| - 1], areas[|areas| - 1];
      assert areas == front + [last];
      AreaSetSize(front);
      assert AreaSet(areas) == AreaSet(front) + {last};
    }
  }

  /** Six distinct known areas are all of them. */
  lemma SixAreasAreAll(areas: seq<Area>)
    requires |areas| == |AREAS| && DistinctAreas(areas) && forall a :: a in areas ==> !a.UnknownArea?
    ensures forall a: Area :: !a.UnknownArea? ==> a in areas
  {
    AreaSetSize(areas);
    AreaSetSize(AREAS);
    assert forall a: Area :: !a.UnknownArea? <==> a in AREAS;
    SubsetOfSameSize(AreaSet(areas), AreaSet(AREAS));
    forall a: Area | !a.UnknownArea?
      ensures a in areas
    {
      assert a in AreaSet(AREAS);
    }
  }

  lemma EveryAreaIsRequired(reqs: seq<Requirement>, area: Area)
    requires RequirementsOk(reqs) && !area.UnknownArea?
    ensures FindRequirement(reqs, area).Some? && RequirementOk(FindRequirement(reqs, area).value)
  {
    hide RequirementOk, FindRequirement;
    var areas := AreasOf(reqs, RequiredArea);
    forall a | a in areas
      ensures !a.UnknownArea?
    {
      var i :| 0 <= i < |areas| && areas[i] == a;
      RequiredIsKnown(reqs[i]);
    }
    SixAreasAreAll(areas);
    var i :| 0 <= i < |areas| && areas[i] == area;
    assert reqs[i] in reqs;
  }

  lemma RequiredIsKnown(r: Requirement)
    requires RequirementOk(r)
    ensures !r.area.UnknownArea?
  {
  }

  // ---------------------------------------------------------------- declarations

  predicate SameTuple(a: Declared, b: Declared) {
    a.area == b.area && a.from == b.from && a.to == b.to
  }

  predicate DeclarationOk(d: Declared) {
    0 < |d.id| <= MAX_ID && !d.area.UnknownArea? && d.from != 0 && d.to != 0 && d.from != d.to
  }

  predicate Clashes(a: Declared, b: Declared) {
    a.id == b.id || SameTuple(a, b)
  }

  /** One turn of the declaration loop; None lets it go on. */
  function DeclarationFault(reqs: seq<Requirement>, earlier: seq<Declared>, d: Declared): Option<Registry> {
    if !DeclarationOk(d) then Some(RegistryInvalidInput)
    else if exists j :: 0 <= j < |earlier| && Clashes(earlier[j], d) then Some(DuplicateDeclaration)
    else
      var m := FindCompiled(d.id);
      if m.None? then Some(NotCompiled)
      else if m.value.area != d.area || m.value.from != d.from || m.value.to != d.to || m.value.lossy != d.lossy
      then Some(DeclarationMismatch)
      else
        var r := FindRequirement(reqs, d.area);
        if r.None? || r.value.target != d.to || d.from in r.value.accepted then Some(SchemaMismatch) else None
  }

  function DeclarationsFault(reqs: seq<Requirement>, ds: seq<Declared>): Option<Registry> {
    if ds == [] then None
    else
      var front := DeclarationsFault(reqs, ds[..|ds| - 1]);
      if front.Some? then front else DeclarationFault(reqs, ds[..|ds| - 1], ds[|ds| - 1])
  }

  function RegistryOf(reqs: seq<Requirement>, ds: seq<Declared>): Registry {
    if !RequirementsOk(reqs) || |ds| > MAX_DECLARED then RegistryInvalidInput
    else
      var fault := DeclarationsFault(reqs, ds);
      if fault.Some? then fault.value else RegistryValid
  }

  /** A declaration selects exactly one compiled entry that its area's requirement asks for. */
  predicate Selects(reqs: seq<Requirement>, d: Declared, m: Migration) {
    && m in COMPILED && m.id == d.id && m.area == d.area && m.from == d.from && m.to == d.to && m.lossy == d.lossy
    && FindRequirement(reqs, d.area).Some?
    && FindRequirement(reqs, d.area).value.target == d.to && d.from !in FindRequirement(reqs, d.area).value.accepted
  }

  predicate WellDeclared(reqs: seq<Requirement>, ds: seq<Declared>) {
    && (forall i :: 0 <= i < |ds| ==> exists m :: m in COMPILED && Selects(reqs, ds[i], m))
    && (forall i, j :: 0 <= i < j < |ds| ==> !Clashes(ds[i], ds[j]))
  }

  lemma DeclarationExact(reqs: seq<Requirement>, earlier: seq<Declared>, d: Declared)
    ensures DeclarationFault(reqs, earlier, d).None? <==>
              (exists m :: m in COMPILED && Selects(reqs, d, m)) && forall j :: 0 <= j < |earlier| ==> !Clashes(earlier[j], d)
  {
    hide FindCompiled, FindRequirement, Offers;
    if exists m :: m in COMPILED && Selects(reqs, d, m) {
      var m :| m in COMPILED && Selects(reqs, d, m);
      CompiledIsFound(m);
      CompiledIdFits(m);
      CompiledVersions(m);
    } else if FindCompiled(d.id).Some? {
      assert !Selects(reqs, d, FindCompiled(d.id).value);
    }
  }

  lemma CompiledVersions(m: Migration)
    requires m in COMPILED
    ensures !m.area.UnknownArea? && m.from == 1 && m.to == 2
  {
    CompiledOffers(m);
  }

  /** The declaration loop accepts exactly well-declared lists. */
  lemma {:induction false} DeclarationsExact(reqs: seq<Requirement>, ds: seq<Declared>)
    ensures DeclarationsFault(reqs, ds).None? <==> WellDeclared(reqs, ds)
  {
    hide Selects, Clashes, DeclarationFault;
    if ds != [] {
      var front, d := ds[..|ds| - 1], ds[|ds| - 1];
      assert ds == front + [d];
      DeclarationsExact(reqs, front);
      DeclarationExact(reqs, front, d);
      WellDeclaredSnoc(reqs, front, d);
    }
  }

  lemma WellDeclaredSnoc(reqs: seq<Requirement>, front: seq<Declared>, d: Declared)
    ensures WellDeclared(reqs, front + [d]) <==>
              && WellDeclared(reqs, front) && (exists m :: m in COMPILED && Selects(reqs, d, m))
              && forall j :: 0 <= j < |front| ==> !Clashes(front[j], d)
  {
    hide Selects, Clashes;
    var ds := front + [d];
    assert ds[|front|] == d && forall i :: 0 <= i < |front| ==> ds[i] == front[i];
    if WellDeclared(reqs, ds) {
      assert forall i :: 0 <= i < |front| ==> !Clashes(ds[i], ds[|front|]);
    }
  }

  /** ValidateConfigMigrationDeclarations */
  method ValidateDeclarations(reqs: seq<Requirement>, ds: seq<Declared>) returns (status: Registry)
    ensures status == RegistryOf(reqs, ds)
    ensures status.RegistryValid? <==> RequirementsOk(reqs) && |ds| <= MAX_DECLARED && WellDeclared(reqs, ds)
  {
    hide RequirementOk, WellDeclared, Clashes, DeclarationFault;
    DeclarationsExact(reqs, ds);
    NeverFaultless(reqs, ds);
    if |reqs| != |AREAS| || |ds| > MAX_DECLARED { return RegistryInvalidInput; }
    var seen: set<Area> := {};
    for i := 0 to |reqs|
      invariant forall a :: a in seen <==> exists k :: 0 <= k < i && reqs[k].area == a
      invariant forall k :: 0 <= k < i ==> RequirementOk(reqs[k])
      invariant forall j, k :: 0 <= j < k < i ==> reqs[j].area != reqs[k].area
    {
      if !RequirementOk(reqs[i]) { return RegistryInvalidInput; }
      if reqs[i].area in seen {
        var k :| 0 <= k < i && reqs[k].area == reqs[i].area;
        assert AreasOf(reqs, RequiredArea)[k] == AreasOf(reqs, RequiredArea)[i];
        return RegistryInvalidInput;
      }
      seen := seen + {reqs[i].area};
    }
    status := CheckDeclarations(reqs, ds);
  }

  lemma {:induction false} NeverFaultless(reqs: seq<Requirement>, ds: seq<Declared>)
    ensures DeclarationsFault(reqs, ds) != Some(RegistryValid)
  {
    hide FindRequirement, FindCompiled;
    if ds != [] {
      NeverFaultless(reqs, ds[..|ds| - 1]);
    }
  }

  /** The checks of one declaration, with the scan for an earlier clash. */
  method CheckDeclaration(reqs: seq<Requirement>, earlier: seq<Declared>, d: Declared) returns (fault: Option<Registry>)
    ensures fault == DeclarationFault(reqs, earlier, d)
  {
    hide FindRequirement, FindCompiled, DeclarationOk, Clashes;
    if !DeclarationOk(d) { return Some(RegistryInvalidInput); }
    for j := 0 to |earlier|
      invariant forall k :: 0 <= k < j ==> !Clashes(earlier[k], d)
    {
      if Clashes(earlier[j], d) { return Some(DuplicateDeclaration); }
    }
    var m := FindCompiled(d.id);
    if m.None? { return Some(NotCompiled); }
    if m.value.area != d.area || m.value.from != d.from || m.value.to != d.to || m.value.lossy != d.lossy {
      return Some(DeclarationMismatch);
    }
    var r := FindRequirement(reqs, d.area);
    return if r.None? || r.value.target != d.to || d.from in r.value.accepted then Some(SchemaMismatch) else None;
  }

  /** The declaration loop. */
  method CheckDeclarations(reqs: seq<Requirement>, ds: seq<Declared>) returns (status: Registry)
    ensures status == if DeclarationsFault(reqs, ds).Some? then DeclarationsFault(reqs, ds).value else RegistryValid
  {
    hide DeclarationFault;
    assert ds[..0] == [];
    for i := 0 to |ds|
      invariant DeclarationsFault(reqs, ds[..i]).None?
    {
      var d := ds[i];
      assert ds[..i + 1][..i] == ds[..i];
      FaultStays(reqs, ds, i + 1);
      var fault := CheckDeclaration(reqs, ds[..i], d);
      if fault.Some? { return fault.value; }
    }
    assert ds[..|ds|] == ds;
    return RegistryValid;
  }

  lemma {:induction false} FaultStays(reqs: seq<Requirement>, ds: seq<Declared>, k: nat)
    requires k <= |ds|
    ensures DeclarationsFault(reqs, ds[..k]).Some? ==> DeclarationsFault(reqs, ds) == DeclarationsFault(reqs, ds[..k])
    decreases |ds| - k
  {
    hide DeclarationFault;
    if k < |ds| {
      FaultStays(reqs, ds, k + 1);
      assert ds[..k + 1][..k] == ds[..k];
    } else {
      assert ds[..k] == ds;
    }
  }

  // ---------------------------------------------------------------- one area

  datatype Assessment = Assessment(area: Area, detection: Detection, source: nat, target: nat,
                                   classification: Classification, id: string, digest: Option<string>)

  function VersionOf(d: Detection): nat { if d.Valid? then d.version else 0 }

  /** FindDeclaredMigration */
  function FindDeclared(ds: seq<Declared>, area: Area, from: nat, to: nat): (r: Option<Declared>)
    ensures r.Some? ==> r.value in ds && r.value.area == area && r.value.from == from && r.value.to == to
    ensures r.None? ==> forall d :: d in ds ==> !(d.area == area && d.from == from && d.to == to)
  {
    if ds == [] then None
    else if ds[0].area == area && ds[0].from == from && ds[0].to == to then Some(ds[0])
    else FindDeclared(ds[1..], area, from, to)
  }

  function Classify(d: Detection, r: Requirement, declared: Option<Declared>): Classification {
    if !d.Valid? && !d.Missing? then Consent.UnknownOrCorrupt
    else if VersionOf(d) > r.target then Consent.NewerThanTarget
    else if VersionOf(d) in r.accepted then Consent.Compatible
    else if declared.None? then Consent.UnknownOrCorrupt
    else if declared.value.lossy then Consent.ResetRequired
    else Consent.LosslessMigration
  }

  /** Some declaration takes the area from one version to another, with or without loss. */
  predicate Declares(ds: seq<Declared>, area: Area, from: nat, to: nat, lossy: bool) {
    exists i :: 0 <= i < |ds| && ds[i].area == area && ds[i].from == from && ds[i].to == to && ds[i].lossy == lossy
  }

  /** What is known of the area is no newer than the target, and the target does not accept it as it is. */
  predicate Behind(d: Detection, r: Requirement) {
    || (d.Valid? && d.version <= r.target && d.version !in r.accepted)
    || (d.Missing? && 0 !in r.accepted)
  }

  /** When each classification is right, by detection, requirement and declarations. */
  predicate Rightly(d: Detection, area: Area, r: Requirement, ds: seq<Declared>, c: Classification) {
    && (c.NewerThanTarget? <==> d.Valid? && d.version > r.target)
    && (c.Compatible? <==> (d.Valid? && d.version <= r.target && d.version in r.accepted) || (d.Missing? && 0 in r.accepted))
    && (c.ResetRequired? <==> Behind(d, r) && Declares(ds, area, VersionOf(d), r.target, true))
    && (c.LosslessMigration? <==> Behind(d, r) && Declares(ds, area, VersionOf(d), r.target, false))
    && (c.UnknownOrCorrupt? <==>
          (!d.Valid? && !d.Missing?)
          || (Behind(d, r) && !Declares(ds, area, VersionOf(d), r.target, true) && !Declares(ds, area, VersionOf(d), r.target, false)))
    && !c.InvalidRule?
  }

  /** An area that stops an update: unreadable, newer than the target, or behind it without a declaration. */
  predicate Stops(d: Detection, area: Area, r: Requirement, ds: seq<Declared>) {
    || (!d.Valid? && !d.Missing?)
    || (d.Valid? && d.version > r.target)
    || (Behind(d, r) && !Declares(ds, area, VersionOf(d), r.target, true) && !Declares(ds, area, VersionOf(d), r.target, false))
  }

  /** Every area is classified rightly, whatever the target. */
  lemma ClassifiedRightly(reader: StateReader, sha: Hasher, s: Snapshot, r: Requirement, reqs: seq<Requirement>, ds: seq<Declared>)
    requires |s.files| <= MAX_FILES && WellDeclared(reqs, ds)
    ensures var a := AssessArea(reader, sha, s, r, ds);
            && a.detection == DetectArea(reader, s) && a.area == s.area && a.target == r.target && a.source == VersionOf(a.detection)
            && Rightly(a.detection, s.area, r, ds, a.classification)
            && (Changes(a.classification) ==>
                  exists i :: 0 <= i < |ds| && ds[i].id == a.id && ds[i].area == a.area && ds[i].from == a.source && ds[i].to == a.target)
  {
    hide DetectArea, Preimage, Selects;
    var d := DetectArea(reader, s);
    var found := FindDeclared(ds, s.area, VersionOf(d), r.target);
    if found.Some? {
      var i :| 0 <= i < |ds| && ds[i] == found.value;
      forall j | 0 <= j < |ds| && SameTuple(ds[j], ds[i])
        ensures j == i
      {
      }
    }
    hide FindDeclared;
  }

  predicate Changes(c: Classification) { c.LosslessMigration? || c.ResetRequired? }

  /** One turn of the assessment loop. */
  function AssessArea(reader: StateReader, sha: Hasher, s: Snapshot, r: Requirement, ds: seq<Declared>): Assessment
    requires |s.files| <= MAX_FILES
  {
    var d := DetectArea(reader, s);
    var declared := FindDeclared(ds, s.area, VersionOf(d), r.target);
    var c := Classify(d, r, declared);
    Assessment(s.area, d, VersionOf(d), r.target, c, if Changes(c) then declared.value.id else "", sha(Preimage(s)))
  }

  /** The request that carries an assessment out: recorded identifier and versions, consent exactly for a reset. */
  function RequestFor(a: Assessment, s: Snapshot, defaults: Option<Snapshot>): Request {
    Request(a.area, a.id, a.source, a.target, a.classification.ResetRequired?, Some(s), defaults)
  }

  lemma ChangeIsDeclared(reader: StateReader, sha: Hasher, s: Snapshot, r: Requirement, reqs: seq<Requirement>, ds: seq<Declared>)
    returns (m: Migration)
    requires ShapeOk(s) && WellDeclared(reqs, ds) && Changes(AssessArea(reader, sha, s, r, ds).classification)
    ensures m in COMPILED
    ensures var a := AssessArea(reader, sha, s, r, ds);
            && DetectArea(reader, s) == Valid(a.source) && a.source == 1 && a.target == 2
            && m.id == a.id && m.area == s.area && (m.lossy <==> a.classification.ResetRequired?)
  {
    hide DetectArea, Preimage, FindRequirement, ShapeOk, Offers;
    var d := FindDeclared(ds, s.area, VersionOf(DetectArea(reader, s)), r.target).value;
    var i :| 0 <= i < |ds| && ds[i] == d;
    m :| m in COMPILED && Selects(reqs, ds[i], m);
    CompiledVersions(m);
  }

  /** Nothing about identifier, versions, source or consent is refused; the form only for the number of outputs. */
  predicate NotRefused(out: Outcome, sinks: seq<Sink>) {
    out.Rejected? ==>
      && !out.status.UnknownMigration? && !out.status.MigrationMismatch?
      && !out.status.SourceRejected? && !out.status.ResetConsentRequired?
      && (out.status.InvalidInput? <==> |sinks| == 0 || |sinks| > MAX_FILES)
  }

  /**
   Assessment promises are kept: carrying out an area that was assessed as a migration
   or a reset is never refused for its identifier, its versions, its source or missing
   consent, and for its form only when the outputs are none or too many.
   */
  lemma AssessmentIsKept(reader: StateReader, sha: Hasher, s: Snapshot, r: Requirement, reqs: seq<Requirement>, ds: seq<Declared>,
                         defaults: Option<Snapshot>, sinks: seq<Sink>, independent: bool)
    requires ShapeOk(s) && WellDeclared(reqs, ds) && Changes(AssessArea(reader, sha, s, r, ds).classification)
    ensures var a := AssessArea(reader, sha, s, r, ds);
            NotRefused(Apply(reader, RequestFor(a, s, defaults), sinks, independent), sinks)
  {
    assert |s.files| <= MAX_FILES;
    hide AssessArea, WellDeclared, DetectArea, ShapeOk, Apply;
    var m := ChangeIsDeclared(reader, sha, s, r, reqs, ds);
    var a := AssessArea(reader, sha, s, r, ds);
    AssessedArea(reader, sha, s, r, ds);
    FittingRequest(reader, m, RequestFor(a, s, defaults), s, sinks, independent);
  }

  /** A request that fits its compiled entry and its source passes all checks on them. */
  lemma FittingRequest(reader: StateReader, m: Migration, req: Request, s: Snapshot, sinks: seq<Sink>, independent: bool)
    requires m in COMPILED && req.id == m.id && req.area == m.area == s.area && req.sourceVersion == 1 && req.targetVersion == 2
    requires (req.consent <==> m.lossy) && req.source == Some(s) && ShapeOk(s) && DetectArea(reader, s) == Valid(1)
    ensures NotRefused(Apply(reader, req, sinks, independent), sinks)
  {
    hide DetectArea, FindCompiled, DefaultsOk, WriteOutcome;
    CompiledIsFound(m);
    CompiledVersions(m);
    hide ShapeOk;
    if Admit(reader, req, sinks).Chosen? {
      AdmitEstablishes(reader, req, sinks);
      WritingStatus(reader, req, m, sinks, independent);
    }
  }

  lemma WritingStatus(reader: StateReader, req: Request, m: Migration, sinks: seq<Sink>, independent: bool)
    requires Admitted(reader, req, m)
    ensures var out := WriteOutcome(reader, req, m, sinks, independent);
            out.Rejected? ==>
              out.status in {OutputCountMismatch, AliasedOutput, OutputTooSmall, TransformFailed, SemanticRevalidationFailed}
  {
    hide Admitted, SinksMatch, Roomy, NewContents, AllFit, Revalidates, Expected;
  }

  lemma AssessedArea(reader: StateReader, sha: Hasher, s: Snapshot, r: Requirement, ds: seq<Declared>)
    requires |s.files| <= MAX_FILES
    ensures AssessArea(reader, sha, s, r, ds).area == s.area
  {
  }

  /**
   The stronger promise for lossless changes: with room, an area assessed as a lossless
   migration is migrated if and only if it is a cmdline area or has no explicit header.
   */
  lemma LosslessPromise(reader: StateReader, sha: Hasher, s: Snapshot, r: Requirement, reqs: seq<Requirement>, ds: seq<Declared>,
                        defaults: Option<Snapshot>, sinks: seq<Sink>)
    requires ShapeOk(s) && WellDeclared(reqs, ds) && AssessArea(reader, sha, s, r, ds).classification.LosslessMigration?
    requires SinksMatch(s, sinks) && SourceRoom(s, sinks)
    ensures var a := AssessArea(reader, sha, s, r, ds);
            Apply(reader, RequestFor(a, s, defaults), sinks, true).Done? <==> CmdlineArea(s.area) || Headerless(s)
  {
    assert |s.files| <= MAX_FILES;
    hide AssessArea, WellDeclared, DetectArea, ShapeOk, Apply, SinksMatch, SourceRoom, Headerless;
    var m := ChangeIsDeclared(reader, sha, s, r, reqs, ds);
    var a := AssessArea(reader, sha, s, r, ds);
    AssessedArea(reader, sha, s, r, ds);
    assert RequestFor(a, s, defaults) == LosslessRequest(m, s, defaults);
    if CmdlineArea(s.area) || Headerless(s) {
      LosslessIsComplete(reader, m, s, defaults, sinks);
    } else {
      ExplicitHeaderIsRefused(reader, m, s, defaults, sinks);
    }
  }

  // ---------------------------------------------------------------- the plan

  datatype Decision = PlanCompatible | PlanLossless | PlanResetConfirmation | PlanBlockedUnknown | PlanBlockedNewer | PlanInvalidInput
  datatype Plan = Plan(areas: seq<Assessment>, decision: Decision, compatible: nat, migrations: nat, resets: nat, blocked: nat)

  function Severity(c: Classification): nat {
    match c
    case Compatible => 0
    case LosslessMigration => 1
    case ResetRequired => 2
    case UnknownOrCorrupt => 3
    case NewerThanTarget => 4
    case InvalidRule => 5
  }

  function Rank(d: Decision): nat {
    match d
    case PlanCompatible => 0
    case PlanLossless => 1
    case PlanResetConfirmation => 2
    case PlanBlockedUnknown => 3
    case PlanBlockedNewer => 4
    case PlanInvalidInput => 5
  }

  /** The decision of a plan is the worst of its classifications. */
  predicate Worst(cs: seq<Classification>, d: Decision) {
    && (forall i :: 0 <= i < |cs| ==> Severity(cs[i]) <= Rank(d))
    && (Rank(d) > 0 ==> exists i :: 0 <= i < |cs| && Severity(cs[i]) == Rank(d))
  }

  function Tally(cs: seq<Classification>, from: nat, to: nat): nat {
    if cs == [] then 0
    else Tally(cs[..|cs| - 1], from, to) + if from <= Severity(cs[|cs| - 1]) <= to then 1 else 0
  }

  /** One turn of the decision switch. */
  function Decide(d: Decision, c: Classification): Decision {
    match c
    case Compatible => d
    case LosslessMigration => if d.PlanCompatible? then PlanLossless else d
    case ResetRequired => if !d.PlanBlockedUnknown? && !d.PlanBlockedNewer? then PlanResetConfirmation else d
    case UnknownOrCorrupt => if !d.PlanBlockedNewer? then PlanBlockedUnknown else d
    case NewerThanTarget => PlanBlockedNewer
    case InvalidRule => PlanInvalidInput
  }

  predicate NoInvalidRule(cs: seq<Classification>) {
    forall i :: 0 <= i < |cs| ==> !cs[i].InvalidRule?
  }

  /** The decision after all classifications. */
  function DecisionOf(cs: seq<Classification>): Decision {
    if cs == [] then PlanCompatible else Decide(DecisionOf(cs[..|cs| - 1]), cs[|cs| - 1])
  }

  /** An invalid rule that only compatible areas and lossless migrations follow. */
  predicate InvalidStands(cs: seq<Classification>) {
    exists i :: 0 <= i < |cs| && cs[i].InvalidRule? && forall j :: i < j < |cs| ==> cs[j].Compatible? || cs[j].LosslessMigration?
  }

  lemma DecideRank(d: Decision, c: Classification)
    requires !c.InvalidRule?
    ensures Rank(d) < 5 ==> Rank(Decide(d, c)) == if Severity(c) > Rank(d) then Severity(c) else Rank(d)
    ensures Rank(d) <= 5
  {
  }

  lemma InvalidIsWorst(c: Classification)
    ensures Severity(c) <= 5 && (Severity(c) == 5 <==> c.InvalidRule?)
  {
  }

  lemma {:induction false} WorstWithoutInvalid(cs: seq<Classification>)
    requires NoInvalidRule(cs)
    ensures Worst(cs, DecisionOf(cs)) && Rank(DecisionOf(cs)) < 5
  {
    if cs != [] {
      var front, c := cs[..|cs| - 1], cs[|cs| - 1];
      WorstWithoutInvalid(front);
      hide Severity, Rank, DecisionOf;
      assert DecisionOf(cs) == Decide(DecisionOf(front), c) by { LastDecision(cs); }
      DecideRank(DecisionOf(front), c);
      InvalidIsWorst(c);
      assert forall i :: 0 <= i < |front| ==> cs[i] == front[i];
    }
  }

  lemma LastDecision(cs: seq<Classification>)
    requires cs != []
    ensures DecisionOf(cs) == Decide(DecisionOf(cs[..|cs| - 1]), cs[|cs| - 1])
  {
  }

  lemma InvalidStandsSnoc(front: seq<Classification>, c: Classification)
    ensures InvalidStands(front + [c]) <==> c.InvalidRule? || (InvalidStands(front) && (c.Compatible? || c.LosslessMigration?))
  {
    var cs := front + [c];
    assert cs[|front|] == c && forall i :: 0 <= i < |front| ==> cs[i] == front[i];
    if InvalidStands(cs) {
      var i :| 0 <= i < |cs| && cs[i].InvalidRule? && forall j :: i < j < |cs| ==> cs[j].Compatible? || cs[j].LosslessMigration?;
      if i < |front| {
        assert front[i].InvalidRule? && forall j :: i < j < |front| ==> front[j] == cs[j];
      }
    }
    if InvalidStands(front) && (c.Compatible? || c.LosslessMigration?) {
      var i :| 0 <= i < |front| && front[i].InvalidRule? && forall j :: i < j < |front| ==> front[j].Compatible? || front[j].LosslessMigration?;
      assert cs[i].InvalidRule?;
    }
  }

  /** The decision is InvalidInput exactly while an invalid rule stands. */
  lemma {:induction false} InvalidDecision(cs: seq<Classification>)
    ensures DecisionOf(cs) == PlanInvalidInput <==> InvalidStands(cs)
  {
    if cs != [] {
      var front, c := cs[..|cs| - 1], cs[|cs| - 1];
      InvalidDecision(front);
      assert cs == front + [c];
      InvalidStandsSnoc(front, c);
    }
  }

  /** Exactly when the decision is the worst classification. */
  lemma DecisionIsWorst(cs: seq<Classification>)
    ensures Worst(cs, DecisionOf(cs)) <==> NoInvalidRule(cs) || InvalidStands(cs)
  {
    hide DecisionOf;
    InvalidDecision(cs);
    if NoInvalidRule(cs) {
      WorstWithoutInvalid(cs);
    } else {
      var i :| 0 <= i < |cs| && cs[i].InvalidRule?;
      forall k | 0 <= k < |cs|
        ensures Severity(cs[k]) <= 5
      {
        InvalidIsWorst(cs[k]);
      }
      assert Severity(cs[i]) == 5;
    }
  }

  /** RecomputePlanDecision */
  method RecomputeDecision(cs: seq<Classification>) returns (d: Decision, compatible: nat, migrations: nat, resets: nat, blocked: nat)
    ensures d == DecisionOf(cs)
    ensures Worst(cs, d) <==> NoInvalidRule(cs) || InvalidStands(cs)
    ensures compatible == Tally(cs, 0, 0) && migrations == Tally(cs, 1, 1) && resets == Tally(cs, 2, 2) && blocked == Tally(cs, 3, 5)
    ensures compatible + migrations + resets + blocked == |cs|
  {
    hide Worst, InvalidStands, NoInvalidRule;
    DecisionIsWorst(cs);
    d, compatible, migrations, resets, blocked := PlanCompatible, 0, 0, 0, 0;
    for i := 0 to |cs|
      invariant d == DecisionOf(cs[..i])
      invariant compatible == Tally(cs[..i], 0, 0) && migrations == Tally(cs[..i], 1, 1)
      invariant resets == Tally(cs[..i], 2, 2) && blocked == Tally(cs[..i], 3, 5)
      invariant compatible + migrations + resets + blocked == i
    {
      assert cs[..i + 1][..i] == cs[..i];
      d := Decide(d, cs[i]);
      match cs[i] {
        case Compatible => compatible := compatible + 1;
        case LosslessMigration => migrations := migrations + 1;
        case ResetRequired => resets := resets + 1;
        case _ => blocked := blocked + 1;
      }
    }
    assert cs[..|cs|] == cs;
  }

  /** A reset after an invalid rule hides it; no assessment makes such a plan. */
  lemma InvalidRuleIsForgotten()
    ensures var cs := [Consent.InvalidRule, Consent.ResetRequired];
            DecisionOf(cs) == PlanResetConfirmation && !Worst(cs, DecisionOf(cs))
  {
    var cs := [Consent.InvalidRule, Consent.ResetRequired];
    assert cs[..1] == [Consent.InvalidRule] && cs[..1][..0] == [];
    assert DecisionOf(cs[..1]) == PlanInvalidInput;
    assert Severity(cs[0]) == 5;
  }

  // ---------------------------------------------------------------- the whole snapshot

  /** A full snapshot has every area exactly once, each well formed. */
  predicate FullSnapshot(snap: seq<Snapshot>) {
    |snap| == |AREAS| && (forall i :: 0 <= i < |snap| ==> ShapeOk(snap[i])) && DistinctAreas(AreasOf(snap, SnapshotArea))
  }

  function FindArea(snap: seq<Snapshot>, area: Area): (r: Option<Snapshot>)
    ensures r.Some? ==> r.value in snap && r.value.area == area
    ensures r.None? ==> forall s :: s in snap ==> s.area != area
  {
    if snap == [] then None else if snap[0].area == area then Some(snap[0]) else FindArea(snap[1..], area)
  }

  lemma EveryAreaIsThere(snap: seq<Snapshot>, area: Area)
    requires FullSnapshot(snap) && !area.UnknownArea?
    ensures FindArea(snap, area).Some? && ShapeOk(FindArea(snap, area).value) && |FindArea(snap, area).value.files| <= MAX_FILES
  {
    hide FindArea, PathBelongs, Total;
    var areas := AreasOf(snap, SnapshotArea);
    forall a | a in areas
      ensures !a.UnknownArea?
    {
      var i :| 0 <= i < |areas| && areas[i] == a;
      assert ShapeOk(snap[i]);
    }
    SixAreasAreAll(areas);
    var i :| 0 <= i < |areas| && areas[i] == area;
    assert snap[i] in snap;
  }

  /** ValidateFullSnapshot */
  method ValidateSnapshot(snap: seq<Snapshot>) returns (ok: bool)
    ensures ok <==> FullSnapshot(snap)
  {
    hide ShapeOk;
    if |snap| != |AREAS| { return false; }
    var seen: set<Area> := {};
    for i := 0 to |snap|
      invariant forall a :: a in seen <==> exists k :: 0 <= k < i && snap[k].area == a
      invariant forall k :: 0 <= k < i ==> ShapeOk(snap[k])
      invariant forall j, k :: 0 <= j < k < i ==> snap[j].area != snap[k].area
    {
      if snap[i].area in seen {
        var k :| 0 <= k < i && snap[k].area == snap[i].area;
        assert AreasOf(snap, SnapshotArea)[k] == AreasOf(snap, SnapshotArea)[i];
        return false;
      }
      if !ShapeOk(snap[i]) { return false; }
      seen := seen + {snap[i].area};
    }
    return true;
  }

  /** A plan is blocked exactly when some area stops it. */
  lemma BlockedExactly(reqs: seq<Requirement>, ds: seq<Declared>, areas: seq<Assessment>, d: Decision)
    requires |areas| == |AREAS| && Worst(Classes(areas), d)
    requires forall k :: 0 <= k < |AREAS| ==>
               FindRequirement(reqs, AREAS[k]).Some?
               && Rightly(areas[k].detection, AREAS[k], FindRequirement(reqs, AREAS[k]).value, ds, areas[k].classification)
    ensures (d.PlanBlockedUnknown? || d.PlanBlockedNewer?) <==>
              exists k :: 0 <= k < |AREAS| && Stops(areas[k].detection, AREAS[k], FindRequirement(reqs, AREAS[k]).value, ds)
  {
    hide FindRequirement, Declares, Behind;
    var cs := Classes(areas);
    forall k | 0 <= k < |AREAS|
      ensures Severity(cs[k]) < 5
      ensures Severity(cs[k]) >= 3 <==> Stops(areas[k].detection, AREAS[k], FindRequirement(reqs, AREAS[k]).value, ds)
    {
    }
  }

  datatype Assessed = Assessed(plan: Plan) | AssessInvalidInput | RegistryRejected | HashFailed

  /** The k-th entry of a plan is the assessment of the k-th area. */
  predicate Assesses(reader: StateReader, sha: Hasher, snap: seq<Snapshot>, reqs: seq<Requirement>, ds: seq<Declared>,
                     k: nat, a: Assessment)
    requires k < |AREAS|
  {
    var s, r := FindArea(snap, AREAS[k]), FindRequirement(reqs, AREAS[k]);
    s.Some? && r.Some? && |s.value.files| <= MAX_FILES && a == AssessArea(reader, sha, s.value, r.value, ds)
  }

  function Classes(areas: seq<Assessment>): (r: seq<Classification>)
    ensures |r| == |areas| && forall i :: 0 <= i < |r| ==> r[i] == areas[i].classification
  {
    seq(|areas|, i requires 0 <= i < |areas| => areas[i].classification)
  }

  ghost predicate Accepted(reqs: seq<Requirement>, ds: seq<Declared>) {
    RequirementsOk(reqs) && |ds| <= MAX_DECLARED && WellDeclared(reqs, ds)
  }

  /** The hash of the k-th area succeeds. */
  predicate Hashed(sha: Hasher, snap: seq<Snapshot>, k: nat)
    requires k < |AREAS|
  {
    var s := FindArea(snap, AREAS[k]);
    s.Some? && |s.value.files| <= MAX_FILES && sha(Preimage(s.value)).Some?
  }

  predicate AllHashed(sha: Hasher, snap: seq<Snapshot>) {
    forall k :: 0 <= k < |AREAS| ==> Hashed(sha, snap, k)
  }

  /**
   AssessConfigSnapshot: a plan comes out exactly for a full snapshot with accepted
   declarations whose areas can be hashed; it assesses every area and decides on the
   worst.
   */
  method AssessSnapshot(reader: StateReader, sha: Hasher, snap: seq<Snapshot>, reqs: seq<Requirement>, ds: seq<Declared>)
    returns (r: Assessed)
    ensures r.AssessInvalidInput? <==> !FullSnapshot(snap)
    ensures r.RegistryRejected? <==> FullSnapshot(snap) && !Accepted(reqs, ds)
    ensures r.Assessed? <==> FullSnapshot(snap) && Accepted(reqs, ds) && AllHashed(sha, snap)
    ensures r.Assessed? ==>
              && |r.plan.areas| == |AREAS|
              && (forall k :: 0 <= k < |AREAS| ==> Assesses(reader, sha, snap, reqs, ds, k, r.plan.areas[k]))
              && (forall k :: 0 <= k < |AREAS| ==> r.plan.areas[k].digest.Some? && r.plan.areas[k].area == AREAS[k])
              && (forall k :: 0 <= k < |AREAS| ==>
                    FindRequirement(reqs, AREAS[k]).Some?
                    && Rightly(r.plan.areas[k].detection, AREAS[k], FindRequirement(reqs, AREAS[k]).value, ds, r.plan.areas[k].classification))
              && (r.plan.decision.PlanBlockedUnknown? || r.plan.decision.PlanBlockedNewer? <==>
                    exists k :: 0 <= k < |AREAS| && Stops(r.plan.areas[k].detection, AREAS[k], FindRequirement(reqs, AREAS[k]).value, ds))
              && Worst(Classes(r.plan.areas), r.plan.decision)
              && r.plan.compatible + r.plan.migrations + r.plan.resets + r.plan.blocked == |AREAS|
  {
    hide FullSnapshot, RequirementsOk, WellDeclared, RegistryOf, FindArea, FindRequirement, DetectArea, Preimage, ShapeOk, Worst;
    var full := ValidateSnapshot(snap);
    if !full { return AssessInvalidInput; }
    var registry := ValidateDeclarations(reqs, ds);
    if !registry.RegistryValid? { return RegistryRejected; }
    var areas: seq<Assessment> := [];
    for k := 0 to |AREAS|
      invariant |areas| == k
      invariant forall i :: 0 <= i < k ==> Assesses(reader, sha, snap, reqs, ds, i, areas[i]) && !areas[i].classification.InvalidRule?
      invariant forall i :: 0 <= i < k ==> Hashed(sha, snap, i) && areas[i].digest.Some? && areas[i].area == AREAS[i]
      invariant forall i :: 0 <= i < k ==>
                  FindRequirement(reqs, AREAS[i]).Some?
                  && Rightly(areas[i].detection, AREAS[i], FindRequirement(reqs, AREAS[i]).value, ds, areas[i].classification)
    {
      EveryAreaIsThere(snap, AREAS[k]);
      EveryAreaIsRequired(reqs, AREAS[k]);
      var source, requirement := FindArea(snap, AREAS[k]).value, FindRequirement(reqs, AREAS[k]).value;
      ClassifiedRightly(reader, sha, source, requirement, reqs, ds);
      var detected := DetectArea(reader, source);
      var fed := HashInput(source);
      var digest := sha(fed);
      if digest.None? {
        assert !Hashed(sha, snap, k);
        return HashFailed;
      }
      var declared := FindDeclared(ds, AREAS[k], VersionOf(detected), requirement.target);
      var c := Classify(detected, requirement, declared);
      areas := areas + [Assessment(AREAS[k], detected, VersionOf(detected), requirement.target, c,
                                   if Changes(c) then declared.value.id else "", digest)];
    }
    var d, compatible, migrations, resets, blocked := RecomputeDecision(Classes(areas));
    BlockedExactly(reqs, ds, areas, d);
    return Assessed(Plan(areas, d, compatible, migrations, resets, blocked));
  }

  /**
   Both promises for a plan as AssessSnapshot returns it: whatever entry asks for a
   change, applying that entry to its area is not refused, and with room a lossless one
   is made exactly for cmdline areas and sources without an explicit header.
   */
  lemma PlanIsKept(reader: StateReader, sha: Hasher, snap: seq<Snapshot>, reqs: seq<Requirement>, ds: seq<Declared>,
                   k: nat, a: Assessment, defaults: Option<Snapshot>, sinks: seq<Sink>, independent: bool)
    requires FullSnapshot(snap) && Accepted(reqs, ds) && k < |AREAS| && Assesses(reader, sha, snap, reqs, ds, k, a)
    requires Changes(a.classification)
    ensures var s := FindArea(snap, AREAS[k]).value;
            && NotRefused(Apply(reader, RequestFor(a, s, defaults), sinks, independent), sinks)
            && (a.classification.LosslessMigration? && SinksMatch(s, sinks) && SourceRoom(s, sinks) ==>
                  (Apply(reader, RequestFor(a, s, defaults), sinks, true).Done? <==> CmdlineArea(s.area) || Headerless(s)))
  {
    hide FullSnapshot, WellDeclared, RequirementsOk, ShapeOk, SinksMatch, SourceRoom, Headerless, AssessArea, Apply, FindArea, FindRequirement, NotRefused;
    KnownArea(k);
    EveryAreaIsThere(snap, AREAS[k]);
    var s, r := FindArea(snap, AREAS[k]).value, FindRequirement(reqs, AREAS[k]).value;
    AssessmentIsKept(reader, sha, s, r, reqs, ds, defaults, sinks, independent);
    if a.classification.LosslessMigration? && SinksMatch(s, sinks) && SourceRoom(s, sinks) {
      LosslessPromise(reader, sha, s, r, reqs, ds, defaults, sinks);
    }
  }

  lemma KnownArea(k: nat)
    requires k < |AREAS|
    ensures !AREAS[k].UnknownArea?
  {
  }

  // ---------------------------------------------------------------- an example

  const NETWORK_REQUIREMENT := Requirement(Network, 2, [2])
  const NETWORK_DECLARED := Declared("network-v1-to-v2-marker", Network, 1, 2, false)

  lemma NetworkIsWellDeclared()
    ensures WellDeclared([NETWORK_REQUIREMENT], [NETWORK_DECLARED])
  {
    var reqs := [NETWORK_REQUIREMENT];
    var m := COMPILED[3];
    assert m in COMPILED;
    assert FindRequirement(reqs, Network) == Some(NETWORK_REQUIREMENT);
    assert Selects(reqs, NETWORK_DECLARED, m);
  }

  lemma EmptyCmdlineIsAssessed(reader: StateReader, sha: Hasher)
    ensures var a := AssessArea(reader, sha, EMPTY_CMDLINE, NETWORK_REQUIREMENT, [NETWORK_DECLARED]);
            a.classification.LosslessMigration? && a.id == COMPILED[3].id
  {
    hide DetectLine, Preimage;
    EmptyCmdlineIsValid();
    assert FindDeclared([NETWORK_DECLARED], Network, 1, 2) == Some(NETWORK_DECLARED);
  }

  /** An empty cmdline.txt is assessed as a lossless change, and the change is made. */
  lemma EmptyCmdlineIsKept(reader: StateReader, sha: Hasher, defaults: Option<Snapshot>)
    ensures var a := AssessArea(reader, sha, EMPTY_CMDLINE, NETWORK_REQUIREMENT, [NETWORK_DECLARED]);
            Changes(a.classification) && Apply(reader, RequestFor(a, EMPTY_CMDLINE, defaults), SMALL_SINK, true).Done?
  {
    hide AssessArea, Apply, WellDeclared, ShapeOk, SinksMatch, SourceRoom;
    EmptyCmdlineIsAssessed(reader, sha);
    NetworkIsWellDeclared();
    EmptyCmdlineShape();
    EmptyCmdlineRoom();
    LosslessPromise(reader, sha, EMPTY_CMDLINE, NETWORK_REQUIREMENT, [NETWORK_REQUIREMENT], [NETWORK_DECLARED], defaults, SMALL_SINK);
  }
}
