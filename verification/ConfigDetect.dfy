/**
 Detection of the configuration areas (src/update/config_migration.cpp): every
 detector is a scan over trimmed lines, or over the tokens of the first line.
 */
module ConfigDetect {
  import opened ConfigText

  datatype Area = UnknownArea | Machines | ConfigManagedBlock | CmdlineManagedKeys | Network | Settings | UpdateState
  datatype File = File(path: string, content: string)
  datatype Snapshot = Snapshot(area: Area, files: seq<File>)
  datatype Detection = Valid(version: nat) | Missing | UnknownFormat | Corrupt | LimitExceeded

  const MAX_FILES: nat := 16
  const MAX_AREA: nat := 2 * 1024 * 1024
  const MAX_PATH: nat := 127
  const MAX_CMDLINE: nat := 8192
  const MAX_TOKENS: nat := 128
  const MAX_BLOCK_KEYS: nat := 64
  const MAX_SETTINGS: nat := 512

  function AreaIdentifier(a: Area): string {
    match a
    case Machines => "machines"
    case ConfigManagedBlock => "config_managed_block"
    case CmdlineManagedKeys => "cmdline_managed"
    case Network => "network"
    case Settings => "settings"
    case UpdateState => "update_state"
    case UnknownArea => "unknown"
  }

  // ---------------------------------------------------------------- scans

  /** One step of a scan goes on with a new state or settles the result. */
  datatype Step<S> = Next(state: S) | Stop(result: Detection)

  function Scan<S>(step: (S, string) -> Step<S>, lines: seq<Line>, st: S): Step<S> {
    if lines == [] then Next(st)
    else
      match step(st, Trim(lines[0].text))
      case Stop(d) => Stop(d)
      case Next(st') => Scan(step, lines[1..], st')
  }

  lemma {:induction false} ScanAppend<S>(step: (S, string) -> Step<S>, a: seq<Line>, b: seq<Line>, st: S)
    ensures Scan(step, a + b, st) ==
              match Scan(step, a, st) case Stop(d) => Stop(d) case Next(st') => Scan(step, b, st')
    decreases |a|
  {
    if a == [] {
      assert a + b == b;
    } else {
      assert (a + b)[1..] == a[1..] + b && (a + b)[0] == a[0];
      var r := step(st, Trim(a[0].text));
      if r.Next? {
        ScanAppend(step, a[1..], b, r.state);
      }
    }
  }

  /** The scan of a file: a corrupt line counts where the scan reaches it. */
  function ScanFile<S>(step: (S, string) -> Step<S>, content: string, st: S): Step<S> {
    if !SafeText(content) then Stop(Corrupt)
    else
      var split := Split(content);
      var r := Scan(step, split.lines, st);
      if r.Next? && !split.clean then Stop(Corrupt) else r
  }

  // ---------------------------------------------------------------- schema headers

  datatype Header = NotHeader | Version(v: nat) | Malformed

  const SCHEMA_WORD := "# BMX-SCHEMA"
  const SCHEMA_PREFIX := "# BMX-SCHEMA "

  /** ParseTextSchemaHeader */
  function ParseHeader(line: string, area: Area): Header {
    if !StartsWith(line, SCHEMA_WORD) then NotHeader
    else if !StartsWith(line, SCHEMA_PREFIX) then Malformed
    else
      var rest := line[|SCHEMA_PREFIX|..];
      var e := EqualsAt(rest);
      if e == 0 || e == |rest| then Malformed
      else
        var v := ParsePositiveDecimal(rest[e + 1..]);
        if rest[..e] != AreaIdentifier(area) || v.None? then Malformed else Version(v.value)
  }

  function HeaderText(area: Area, v: nat): string {
    SCHEMA_PREFIX + AreaIdentifier(area) + "=" + Decimal(v)
  }

  function HeaderLine(area: Area, v: nat): Line {
    Line(HeaderText(area, v), HeaderText(area, v) + "\n")
  }

  lemma IdentifierPlain(area: Area)
    ensures '=' !in AreaIdentifier(area) && 0 < |AreaIdentifier(area)| <= 20
    ensures forall i :: 0 <= i < |AreaIdentifier(area)| ==> IdentifierChar(AreaIdentifier(area)[i])
  {
  }

  /** A written header is read back as its version. */
  lemma HeaderRoundTrip(area: Area, v: nat)
    requires 0 < v <= UINT32_MAX
    ensures ParseHeader(HeaderText(area, v), area) == Version(v)
  {
    var s, id := HeaderText(area, v), AreaIdentifier(area);
    var rest := id + "=" + Decimal(v);
    assert s == SCHEMA_PREFIX + rest;
    assert s[|SCHEMA_PREFIX|..] == rest;
    assert SCHEMA_PREFIX[..|SCHEMA_WORD|] == SCHEMA_WORD;
    assert s[..|SCHEMA_WORD|] == SCHEMA_PREFIX[..|SCHEMA_WORD|];
    IdentifierPlain(area);
    EqualsAfter(id, Decimal(v));
    assert rest[..|id|] == id && rest[|id| + 1..] == Decimal(v);
    DecimalRoundTrip(v);
  }

  lemma HeaderIsPlain(area: Area, v: nat)
    requires 0 < v <= UINT32_MAX
    ensures Trim(HeaderText(area, v)) == HeaderText(area, v)
    ensures WholeLine(HeaderLine(area, v)) && Terminated(HeaderLine(area, v)) && |HeaderLine(area, v).raw| <= 96
    ensures forall i :: 0 <= i < |HeaderLine(area, v).raw| ==> SafeChar(HeaderLine(area, v).raw[i])
  {
    var s := HeaderText(area, v);
    IdentifierPlain(area);
    DecimalRoundTrip(v);
    forall i | 0 <= i < |s|
      ensures ' ' <= s[i] <= '~'
    {
      if i >= |SCHEMA_PREFIX| + |AreaIdentifier(area)| + 1 {
        assert s[i] == Decimal(v)[i - |SCHEMA_PREFIX| - |AreaIdentifier(area)| - 1];
      }
    }
    assert s[|s| - 1] == Decimal(v)[|Decimal(v)| - 1];
    TrimIdentity(s);
  }

  /** Putting a header line in front of a readable file puts one line in front of its lines. */
  lemma HeaderInFront(area: Area, v: nat, content: string)
    requires 0 < v <= UINT32_MAX && Split(content).clean
    ensures Split(HeaderLine(area, v).raw + content) == Lines([HeaderLine(area, v)] + Split(content).lines, true)
  {
    hide WholeLine, Terminated, HeaderLine;
    HeaderIsPlain(area, v);
    SplitJoins(content);
    var lines := [HeaderLine(area, v)] + Split(content).lines;
    assert lines[1..] == Split(content).lines;
    JoinSplits(lines);
  }

  lemma HeaderInFrontSafe(area: Area, v: nat, content: string)
    requires 0 < v <= UINT32_MAX && SafeText(content)
    ensures SafeText(HeaderLine(area, v).raw + content) <==> |HeaderLine(area, v).raw + content| <= MAX_FILE
  {
    hide HeaderLine, SafeChar;
    HeaderIsPlain(area, v);
  }

  // ---------------------------------------------------------------- keys and values

  datatype KeyValue = NoPair | Pair(key: string, value: string)

  function SplitPair(line: string): KeyValue {
    var e := EqualsAt(line);
    if e == 0 || e == |line| then NoPair else Pair(Trim(line[..e]), Trim(line[e + 1..]))
  }

  /** SplitKeyValue */
  function SplitKeyValue(line: string): KeyValue {
    var p := SplitPair(line);
    if p.Pair? && IsIdentifier(p.key) && p.value != "" then p else NoPair
  }

  /** SplitSettingsKeyValue: an empty value is a known setting. */
  function SplitSettingsKeyValue(line: string): KeyValue {
    var p := SplitPair(line);
    if p.Pair? && IsIdentifier(p.key) then p else NoPair
  }

  // ---------------------------------------------------------------- machines.ini

  datatype MachineState = MachineState(format: Option<nat>, header: Option<nat>, section: bool, video: bool, machine: bool)

  const MACHINE_START := MachineState(None, None, false, false, false)

  function FirstBlank(s: string): (e: nat)
    ensures e <= |s|
  {
    if s == "" || IsBlank(s[0]) then 0 else 1 + FirstBlank(s[1..])
  }

  function SectionStep(st: MachineState, line: string): Step<MachineState> {
    if |line| < 4 || line[|line| - 1] != ']' then Stop(Corrupt)
    else
      var inside := line[1..|line| - 1];
      var e := FirstBlank(inside);
      if e == 0 || e == |inside| then Stop(Corrupt)
      else
        var kind, name := inside[..e], Trim(inside[e + 1..]);
        if (kind != "video" && kind != "scaling" && kind != "machine") || !IsIdentifier(name) || st.format.None?
        then Stop(UnknownFormat)
        else Next(st.(section := true, video := st.video || kind == "video", machine := st.machine || kind == "machine"))
  }

  function MachineStep(st: MachineState, line: string): Step<MachineState> {
    if line == "" then Next(st)
    else
      match ParseHeader(line, Machines)
      case Malformed => Stop(Corrupt)
      case Version(v) => if st.header.Some? then Stop(Corrupt) else Next(st.(header := Some(v)))
      case NotHeader =>
        if line[0] == '#' then Next(st)
        else if line[0] == '[' then SectionStep(st, line)
        else
          var p := SplitKeyValue(line);
          if p.NoPair? then Stop(Corrupt)
          else if st.section then Next(st)
          else
            var v := ParsePositiveDecimal(p.value);
            if p.key != "format" || st.format.Some? || v.None? then Stop(UnknownFormat)
            else Next(st.(format := v))
  }

  /** What a finished machine file says: a header may accompany format 1 or repeat its number. */
  function MachineVerdict(st: MachineState): Detection {
    if st.format.None? || !st.video || !st.machine then UnknownFormat
    else if st.header.Some? && st.format.value != 1 && st.format.value != st.header.value then Corrupt
    else Valid(if st.header.Some? then st.header.value else st.format.value)
  }

  function DetectMachineFile(content: string): Detection {
    match ScanFile(MachineStep, content, MACHINE_START)
    case Stop(d) => d
    case Next(st) => MachineVerdict(st)
  }

  // ---------------------------------------------------------------- settings*.txt

  datatype SettingsState = SettingsState(header: Option<nat>, keys: seq<string>)

  const SETTINGS_START := SettingsState(None, [])

  function SettingsStep(st: SettingsState, line: string): Step<SettingsState> {
    if line == "" then Next(st)
    else
      match ParseHeader(line, Settings)
      case Malformed => Stop(Corrupt)
      case Version(v) => if st.header.Some? then Stop(Corrupt) else Next(st.(header := Some(v)))
      case NotHeader =>
        if line[0] == '#' || line[0] == ';' then Next(st)
        else
          var p := SplitSettingsKeyValue(line);
          if p.NoPair? then Stop(UnknownFormat)
          else if |st.keys| >= MAX_SETTINGS then Stop(LimitExceeded)
          else if p.key in st.keys then Stop(Corrupt)
          else Next(st.(keys := st.keys + [p.key]))
  }

  function DetectSettingsFile(content: string): Detection {
    match ScanFile(SettingsStep, content, SETTINGS_START)
    case Stop(d) => d
    case Next(st) => Valid(if st.header.Some? then st.header.value else 1)
  }

  // ---------------------------------------------------------------- areas of several text files

  /** All files must be valid with one version; the first fault decides. */
  function Aggregate(detect: string -> Detection, files: seq<File>, version: nat): Detection {
    if files == [] then Valid(version)
    else
      match detect(files[0].content)
      case Valid(v) =>
        if version != 0 && version != v then Corrupt else Aggregate(detect, files[1..], if version == 0 then v else version)
      case d => d
  }

  /** DetectMachines */
  function DetectMachines(files: seq<File>): Detection {
    if files == [] then Missing
    else
      var d := Aggregate(DetectMachineFile, files, 0);
      if d.Valid? && !(exists i :: 0 <= i < |files| && files[i].path == "machines.ini") then UnknownFormat else d
  }

  /** DetectSettings */
  function DetectSettings(files: seq<File>): Detection {
    if files == [] then Missing else Aggregate(DetectSettingsFile, files, 0)
  }

  // ---------------------------------------------------------------- the managed block of config.txt

  const BEGIN_MARKER := "# BEGIN BMX MANAGED"
  const END_MARKER := "# END BMX MANAGED"
  const SELECTOR := "include bmx-active-kernel.txt"

  const BLOCK_KEYS := ["kernel", "disable_overscan", "sdtv_mode", "hdmi_group", "hdmi_group:0", "hdmi_mode", "hdmi_mode:0",
                       "hdmi_timings", "hdmi_cvt", "enable_dpi_lcd", "display_default_lcd", "dpi_group", "dpi_mode",
                       "dpi_timings", "dpi_output_format"]

  datatype BlockState = BlockState(begun: bool, ended: bool, header: Option<nat>, selector: bool, keys: seq<string>)

  const BLOCK_START := BlockState(false, false, None, false, [])
  const BLOCK_OPEN := BlockState(true, false, None, false, [])

  /** A line of the block that is neither a marker nor a header. */
  function BlockLine(st: BlockState, line: string): Step<BlockState> {
    if line == "" || line[0] == '#' then Next(st)
    else if line == SELECTOR then if st.selector then Stop(Corrupt) else Next(st.(selector := true))
    else
      var p := SplitKeyValue(line);
      if p.NoPair? || p.key !in BLOCK_KEYS || |st.keys| >= MAX_BLOCK_KEYS then Stop(UnknownFormat)
      else if p.key in st.keys then Stop(Corrupt)
      else Next(st.(keys := st.keys + [p.key]))
  }

  function BlockStep(st: BlockState, line: string): Step<BlockState> {
    if line == BEGIN_MARKER then if st.begun || st.ended then Stop(Corrupt) else Next(st.(begun := true))
    else if line == END_MARKER then if !st.begun || st.ended then Stop(Corrupt) else Next(st.(ended := true))
    else
      var h := ParseHeader(line, ConfigManagedBlock);
      if !h.NotHeader? then
        if !st.begun || st.ended || h.Malformed? || st.header.Some? then Stop(Corrupt) else Next(st.(header := Some(h.v)))
      else if !st.begun || st.ended then Next(st)
      else BlockLine(st, line)
  }

  function BlockVerdict(st: BlockState): Detection {
    if !st.begun || !st.ended || st.keys == [] then UnknownFormat
    else Valid(if st.header.Some? then st.header.value else 1)
  }

  function DetectBlock(content: string): Detection {
    match ScanFile(BlockStep, content, BLOCK_START)
    case Stop(d) => d
    case Next(st) => BlockVerdict(st)
  }

  /** DetectConfigBlock */
  function DetectConfigBlock(files: seq<File>): Detection {
    if files == [] then Missing
    else if |files| != 1 || files[0].path != "config.txt" then Corrupt
    else DetectBlock(files[0].content)
  }

  // ---------------------------------------------------------------- the update state

  /** What ParseBuildInfo makes of BMX-BUILD.json: the schema versions it lists. */
  datatype BuildInfo = StorageTooSmall | BadBuild | Build(schemas: seq<(Area, nat)>)

  /** The readers of build information and journal copies, which the update state is read with. */
  datatype StateReader = StateReader(parse: string -> BuildInfo, usable: (Option<string>, Option<string>) -> bool)

  const BUILD_PATH := "BMX-BUILD.json"
  const JOURNAL_A := ".bmx-update/transaction/journal.a"
  const JOURNAL_B := ".bmx-update/transaction/journal.b"

  /** The version of the first schema entry for the update state, 0 without one. */
  function StateVersion(schemas: seq<(Area, nat)>): nat {
    if schemas == [] then 0 else if schemas[0].0.UpdateState? then schemas[0].1 else StateVersion(schemas[1..])
  }

  /** The content of the last file at a path. */
  function LastAt(files: seq<File>, path: string): Option<string> {
    if files == [] then None
    else if files[|files| - 1].path == path then Some(files[|files| - 1].content)
    else LastAt(files[..|files| - 1], path)
  }

  predicate Twice(files: seq<File>, path: string) {
    exists i, j :: 0 <= i < j < |files| && files[i].path == path && files[j].path == path
  }

  /** What the files say once build information and journals are found. */
  function StateVerdict(reader: StateReader, build: Option<string>, a: Option<string>, b: Option<string>): Detection {
    if build.None? then UnknownFormat
    else
      match reader.parse(build.value)
      case StorageTooSmall => LimitExceeded
      case BadBuild => Corrupt
      case Build(schemas) =>
        if StateVersion(schemas) == 0 || ((a.Some? || b.Some?) && !reader.usable(a, b)) then Corrupt
        else Valid(StateVersion(schemas))
  }

  /** DetectUpdateState */
  function DetectUpdateState(reader: StateReader, files: seq<File>): Detection {
    if files == [] then Missing
    else if Twice(files, BUILD_PATH) then Corrupt
    else StateVerdict(reader, LastAt(files, BUILD_PATH), LastAt(files, JOURNAL_A), LastAt(files, JOURNAL_B))
  }
}
