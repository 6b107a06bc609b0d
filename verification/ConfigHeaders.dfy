/**
 Schema headers of the text areas (src/update/config_migration.cpp): what a header
 line in front of machines*.ini or settings*.txt does to its detection.
 */
module ConfigHeaders {
  import opened ConfigText
  import opened ConfigDetect

  /** The lines hold a schema header of some area. */
  predicate HasHeader(area: Area, lines: seq<Line>) {
    exists i :: 0 <= i < |lines| && !ParseHeader(Trim(lines[i].text), area).NotHeader?
  }

  /** What all detectors that read headers share: the first header is noted, a second one is corrupt. */
  ghost predicate Headed<S(!new)>(area: Area, step: (S, string) -> Step<S>, bare: S -> bool, mark: S -> S) {
    && (forall s, line :: bare(s) && step(s, line).Next? ==>
          step(mark(s), line) == if ParseHeader(line, area).NotHeader? then Next(mark(step(s, line).state)) else Stop(Corrupt))
    && (forall s, line :: bare(s) && step(s, line).Next? ==>
          (bare(step(s, line).state) <==> ParseHeader(line, area).NotHeader?))
    && (forall s, line :: !bare(s) && step(s, line).Next? ==> !bare(step(s, line).state))
  }

  lemma {:induction false} NotBareStays<S(!new)>(area: Area, step: (S, string) -> Step<S>, bare: S -> bool, mark: S -> S,
                                                 lines: seq<Line>, st: S)
    requires Headed(area, step, bare, mark) && !bare(st) && Scan(step, lines, st).Next?
    ensures !bare(Scan(step, lines, st).state)
  {
    if lines != [] {
      NotBareStays(area, step, bare, mark, lines[1..], step(st, Trim(lines[0].text)).state);
    }
  }

  /** Lines that scan well scan the same after a header, unless they hold one themselves. */
  lemma {:induction false} ScanMarked<S(!new)>(area: Area, step: (S, string) -> Step<S>, bare: S -> bool, mark: S -> S,
                                               lines: seq<Line>, st: S)
    requires Headed(area, step, bare, mark) && bare(st) && Scan(step, lines, st).Next?
    ensures Scan(step, lines, mark(st)) == if HasHeader(area, lines) then Stop(Corrupt) else Next(mark(Scan(step, lines, st).state))
    ensures bare(Scan(step, lines, st).state) <==> !HasHeader(area, lines)
  {
    if lines != [] {
      var line, rest := Trim(lines[0].text), lines[1..];
      var next := step(st, line).state;
      assert lines == [lines[0]] + rest;
      HeaderInList(area, lines);
      if ParseHeader(line, area).NotHeader? {
        ScanMarked(area, step, bare, mark, rest, next);
      } else {
        NotBareStays(area, step, bare, mark, rest, next);
      }
    }
  }

  lemma HeaderInList(area: Area, lines: seq<Line>)
    requires lines != []
    ensures HasHeader(area, lines) <==> !ParseHeader(Trim(lines[0].text), area).NotHeader? || HasHeader(area, lines[1..])
  {
    hide ParseHeader;
    if HasHeader(area, lines[1..]) {
      var i :| 0 <= i < |lines[1..]| && !ParseHeader(Trim(lines[1..][i].text), area).NotHeader?;
      assert lines[i + 1] == lines[1..][i];
    }
    if HasHeader(area, lines) {
      var i :| 0 <= i < |lines| && !ParseHeader(Trim(lines[i].text), area).NotHeader?;
      if i > 0 {
        assert lines[1..][i - 1] == lines[i];
      }
    }
  }

  lemma {:induction false} ScanKeeps<S(!new)>(step: (S, string) -> Step<S>, inv: S -> bool, lines: seq<Line>, st: S)
    requires inv(st) && forall s, line :: inv(s) && step(s, line).Next? ==> inv(step(s, line).state)
    ensures Scan(step, lines, st).Next? ==> inv(Scan(step, lines, st).state)
  {
    if lines != [] {
      var r := step(st, Trim(lines[0].text));
      if r.Next? {
        ScanKeeps(step, inv, lines[1..], r.state);
      }
    }
  }

  /** The scan of a file behind a new header line. */
  lemma ScanBehindHeader<S(!new)>(area: Area, v: nat, step: (S, string) -> Step<S>, bare: S -> bool, mark: S -> S,
                                  content: string, st: S)
    requires 0 < v <= UINT32_MAX && Headed(area, step, bare, mark) && bare(st)
    requires step(st, HeaderText(area, v)) == Next(mark(st)) && ScanFile(step, content, st).Next?
    requires |HeaderLine(area, v).raw + content| <= MAX_FILE
    ensures bare(ScanFile(step, content, st).state) <==> !HasHeader(area, Split(content).lines)
    ensures ScanFile(step, HeaderLine(area, v).raw + content, st)
         == if HasHeader(area, Split(content).lines) then Stop(Corrupt) else Next(mark(ScanFile(step, content, st).state))
  {
    hide SafeText, Split, Headed, HasHeader;
    var lines := Split(content).lines;
    HeaderInFront(area, v, content);
    HeaderInFrontSafe(area, v, content);
    ScanMarked(area, step, bare, mark, lines, st);
    HeaderIsPlain(area, v);
    var all := [HeaderLine(area, v)] + lines;
    assert all[1..] == lines;
    assert Scan(step, all, st) == Scan(step, lines, mark(st));
  }

  // ---------------------------------------------------------------- machines*.ini

  predicate MachineBare(st: MachineState) { st.header.None? }

  function MachineMark(v: nat): MachineState -> MachineState {
    (st: MachineState) => st.(header := Some(v))
  }

  lemma MachineHeaded(v: nat)
    ensures Headed(Machines, MachineStep, MachineBare, MachineMark(v))
  {
    hide ParseHeader, ParsePositiveDecimal, SplitKeyValue;
    forall s, line | MachineBare(s) && MachineStep(s, line).Next?
      ensures MachineStep(MachineMark(v)(s), line)
           == if ParseHeader(line, Machines).NotHeader? then Next(MachineMark(v)(MachineStep(s, line).state)) else Stop(Corrupt)
    {
      if line == "" {
        NoHeaderInNothing(Machines);
      }
    }
    forall s, line | MachineBare(s) && MachineStep(s, line).Next?
      ensures MachineBare(MachineStep(s, line).state) <==> ParseHeader(line, Machines).NotHeader?
    {
      if line == "" {
        NoHeaderInNothing(Machines);
      }
    }
  }

  lemma NoHeaderInNothing(area: Area)
    ensures ParseHeader("", area).NotHeader?
  {
  }

  predicate PositiveVersion(o: Option<nat>) { o.Some? ==> o.value > 0 }

  predicate MachinePositive(st: MachineState) { PositiveVersion(st.header) && PositiveVersion(st.format) }

  lemma HeaderPositive(line: string, area: Area)
    ensures ParseHeader(line, area).Version? ==> ParseHeader(line, area).v > 0
  {
  }

  lemma MachineVersionPositive(content: string)
    ensures DetectMachineFile(content).Valid? ==> DetectMachineFile(content).version > 0
  {
    hide ParseHeader, SplitKeyValue, SectionStep, Split, SafeText;
    forall s, line | MachinePositive(s) && MachineStep(s, line).Next?
      ensures MachinePositive(MachineStep(s, line).state)
    {
      HeaderPositive(line, Machines);
      SectionKeeps(s, line);
    }
    ScanKeeps(MachineStep, MachinePositive, Split(content).lines, MACHINE_START);
    MachineStops(Split(content).lines, MACHINE_START);
  }

  lemma SectionKeeps(st: MachineState, line: string)
    ensures SectionStep(st, line).Next? ==>
              SectionStep(st, line).state.header == st.header && SectionStep(st, line).state.format == st.format
    ensures SectionStep(st, line).Stop? ==> !SectionStep(st, line).result.Valid?
  {
  }

  lemma {:induction false} MachineStops(lines: seq<Line>, st: MachineState)
    ensures Scan(MachineStep, lines, st).Stop? ==> !Scan(MachineStep, lines, st).result.Valid?
  {
    hide ParseHeader, SplitKeyValue, SectionStep, ParsePositiveDecimal;
    if lines != [] {
      var r := MachineStep(st, Trim(lines[0].text));
      SectionKeeps(st, Trim(lines[0].text));
      if r.Next? {
        MachineStops(lines[1..], r.state);
      }
    }
  }

  /**
   A machine file behind a new header of version v: valid with v exactly when it fits,
   has no header yet and its own number is 1 or v.
   */
  lemma MachineFileGainsHeader(content: string, v: nat)
    requires 0 < v <= UINT32_MAX && DetectMachineFile(content).Valid?
    ensures DetectMachineFile(HeaderLine(Machines, v).raw + content)
         == if |HeaderLine(Machines, v).raw + content| <= MAX_FILE && !HasHeader(Machines, Split(content).lines)
               && (DetectMachineFile(content).version == 1 || DetectMachineFile(content).version == v)
            then Valid(v) else Corrupt
  {
    hide ParseHeader, Scan, Split, SafeText, MachineStep, HasHeader, HeaderLine;
    if |HeaderLine(Machines, v).raw + content| <= MAX_FILE {
      MachineStops(Split(content).lines, MACHINE_START);
      MachineHeaded(v);
      MachineReadsHeader(v);
      ScanBehindHeader(Machines, v, MachineStep, MachineBare, MachineMark(v), content, MACHINE_START);
    } else {
      TooLong(HeaderLine(Machines, v).raw + content);
    }
  }

  lemma TooLong(s: string)
    requires |s| > MAX_FILE
    ensures !SafeText(s)
  {
  }

  lemma MachineReadsHeader(v: nat)
    requires 0 < v <= UINT32_MAX
    ensures MachineStep(MACHINE_START, HeaderText(Machines, v)) == Next(MachineMark(v)(MACHINE_START))
  {
    hide ParseHeader;
    HeaderRoundTrip(Machines, v);
    NoHeaderInNothing(Machines);
  }

  // ---------------------------------------------------------------- settings*.txt

  predicate SettingsBare(st: SettingsState) { st.header.None? }

  function SettingsMark(v: nat): SettingsState -> SettingsState {
    (st: SettingsState) => st.(header := Some(v))
  }

  lemma SettingsHeaded(v: nat)
    ensures Headed(Settings, SettingsStep, SettingsBare, SettingsMark(v))
  {
    hide ParseHeader, SplitSettingsKeyValue;
    NoHeaderInNothing(Settings);
  }

  predicate SettingsPositive(st: SettingsState) { PositiveVersion(st.header) }

  lemma {:induction false} SettingsStops(lines: seq<Line>, st: SettingsState)
    ensures Scan(SettingsStep, lines, st).Stop? ==> !Scan(SettingsStep, lines, st).result.Valid?
  {
    hide ParseHeader, SplitSettingsKeyValue;
    if lines != [] {
      var r := SettingsStep(st, Trim(lines[0].text));
      if r.Next? {
        SettingsStops(lines[1..], r.state);
      }
    }
  }

  lemma SettingsVersionPositive(content: string)
    ensures DetectSettingsFile(content).Valid? ==> DetectSettingsFile(content).version > 0
  {
    hide ParseHeader, SplitSettingsKeyValue, Split, SafeText;
    forall s, line | SettingsPositive(s) && SettingsStep(s, line).Next?
      ensures SettingsPositive(SettingsStep(s, line).state)
    {
      HeaderPositive(line, Settings);
    }
    ScanKeeps(SettingsStep, SettingsPositive, Split(content).lines, SETTINGS_START);
    SettingsStops(Split(content).lines, SETTINGS_START);
  }

  /** A settings file behind a new header: valid with its version exactly when it fits and has no header yet. */
  lemma SettingsFileGainsHeader(content: string, v: nat)
    requires 0 < v <= UINT32_MAX && DetectSettingsFile(content).Valid?
    ensures DetectSettingsFile(HeaderLine(Settings, v).raw + content)
         == if |HeaderLine(Settings, v).raw + content| <= MAX_FILE && !HasHeader(Settings, Split(content).lines)
            then Valid(v) else Corrupt
  {
    hide ParseHeader, Scan, Split, SafeText, SettingsStep, HasHeader, HeaderLine;
    if |HeaderLine(Settings, v).raw + content| <= MAX_FILE {
      SettingsStops(Split(content).lines, SETTINGS_START);
      SettingsHeaded(v);
      SettingsReadsHeader(v);
      ScanBehindHeader(Settings, v, SettingsStep, SettingsBare, SettingsMark(v), content, SETTINGS_START);
    } else {
      TooLong(HeaderLine(Settings, v).raw + content);
    }
  }

  lemma SettingsReadsHeader(v: nat)
    requires 0 < v <= UINT32_MAX
    ensures SettingsStep(SETTINGS_START, HeaderText(Settings, v)) == Next(SettingsMark(v)(SETTINGS_START))
  {
    hide ParseHeader;
    HeaderRoundTrip(Settings, v);
    NoHeaderInNothing(Settings);
  }

  // ---------------------------------------------------------------- areas of several files

  /** An area has version v exactly when every one of its files has. */
  lemma {:induction false} AggregateExact(detect: string -> Detection, files: seq<File>, version: nat, v: nat)
    requires forall i :: 0 <= i < |files| && detect(files[i].content).Valid? ==> detect(files[i].content).version > 0
    ensures Aggregate(detect, files, version) == Valid(v) <==>
              (if files == [] then v == version
               else (version == 0 || version == v) && forall i :: 0 <= i < |files| ==> detect(files[i].content) == Valid(v))
  {
    if files != [] {
      var d := detect(files[0].content);
      if d.Valid? && (version == 0 || version == d.version) {
        AggregateExact(detect, files[1..], d.version, v);
        assert forall i :: 0 < i < |files| ==> files[i] == files[1..][i - 1];
      }
    }
  }

  lemma MachinesExact(files: seq<File>, v: nat)
    ensures DetectMachines(files) == Valid(v) <==>
              files != [] && (forall i :: 0 <= i < |files| ==> DetectMachineFile(files[i].content) == Valid(v))
              && (exists i :: 0 <= i < |files| && files[i].path == "machines.ini")
  {
    hide DetectMachineFile;
    forall i | 0 <= i < |files| && DetectMachineFile(files[i].content).Valid?
      ensures DetectMachineFile(files[i].content).version > 0
    {
      MachineVersionPositive(files[i].content);
    }
    AggregateExact(DetectMachineFile, files, 0, v);
  }

  lemma SettingsExact(files: seq<File>, v: nat)
    ensures DetectSettings(files) == Valid(v) <==>
              files != [] && forall i :: 0 <= i < |files| ==> DetectSettingsFile(files[i].content) == Valid(v)
  {
    hide DetectSettingsFile;
    forall i | 0 <= i < |files| && DetectSettingsFile(files[i].content).Valid?
      ensures DetectSettingsFile(files[i].content).version > 0
    {
      SettingsVersionPositive(files[i].content);
    }
    AggregateExact(DetectSettingsFile, files, 0, v);
  }
}
