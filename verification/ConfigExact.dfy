/**
 Which files the detectors of src/update/config_migration.cpp accept, stated on the
 lines alone: headers, pairs, sections and markers, and how often each may occur.
 */
module ConfigExact {
  import opened ConfigText
  import opened ConfigDetect
  import opened ConfigHeaders
  import opened ConfigBlock
  import opened ConfigCmdline

  // ---------------------------------------------------------------- numbers, blanks, pairs, headers

  /** The number a string of digits spells. */
  function Numeral(s: string): nat
    requires forall i :: 0 <= i < |s| ==> IsDigit(s[i])
  {
    if s == "" then 0 else 10 * Numeral(s[..|s| - 1]) + DigitValue(s[|s| - 1])
  }

  predicate Digits(s: string) {
    forall i :: 0 <= i < |s| ==> IsDigit(s[i])
  }

  lemma {:induction false} DecimalValueExact(s: string)
    ensures DecimalValue(s).Some? <==> Digits(s) && Numeral(s) <= UINT32_MAX
    ensures DecimalValue(s).Some? ==> DecimalValue(s).value == Numeral(s)
  {
    if s != "" {
      var front, c := s[..|s| - 1], s[|s| - 1];
      DecimalValueExact(front);
      assert Digits(s) <==> Digits(front) && IsDigit(c);
    }
  }

  /** ParsePositiveDecimal reads one to ten digits that spell a positive 32-bit number. */
  lemma DecimalExact(s: string, v: nat)
    ensures ParsePositiveDecimal(s) == Some(v) <==>
              0 < |s| <= 10 && Digits(s) && Numeral(s) == v && 0 < v <= UINT32_MAX
  {
    DecimalValueExact(s);
  }

  predicate Blanks(s: string) {
    forall i :: 0 <= i < |s| ==> s[i] == ' ' || s[i] == '\t'
  }

  lemma {:induction false} TrimLeftExact(s: string) returns (a: string)
    ensures s == a + TrimLeft(s) && Blanks(a) && (TrimLeft(s) != "" ==> !IsBlank(TrimLeft(s)[0]))
  {
    if s != "" && IsBlank(s[0]) {
      var b := TrimLeftExact(s[1..]);
      a := [s[0]] + b;
      assert s == [s[0]] + s[1..];
    } else {
      a := "";
    }
  }

  lemma EndsLater(a: string, b: string, last: char)
    ensures a + b + [last] == a + (b + [last])
  {
  }

  lemma {:induction false} TrimRightExact(s: string) returns (b: string)
    ensures s == TrimRight(s) + b && Blanks(b) && (TrimRight(s) != "" ==> !IsBlank(TrimRight(s)[|TrimRight(s)| - 1]))
  {
    if s != "" && IsBlank(s[|s| - 1]) {
      var front, last := s[..|s| - 1], s[|s| - 1];
      var c := TrimRightExact(front);
      b := c + [last];
      assert s == front + [last];
      EndsLater(TrimRight(front), c, last);
    } else {
      b := "";
    }
  }

  /** Trimming takes the blanks off both ends and nothing else. */
  lemma TrimExact(s: string) returns (a: string, b: string)
    ensures s == a + Trim(s) + b && Blanks(a) && Blanks(b)
    ensures Trim(s) != "" ==> !IsBlank(Trim(s)[0]) && !IsBlank(Trim(s)[|Trim(s)| - 1])
  {
    a := TrimLeftExact(s);
    b := TrimRightExact(TrimLeft(s));
    assert Trim(s) != "" ==> TrimLeft(s)[0] == Trim(s)[0];
  }

  lemma {:induction false} NoEquals(line: string)
    ensures '=' !in line ==> EqualsAt(line) == |line|
  {
    if line != "" {
      NoEquals(line[1..]);
    }
  }

  /** SplitPair cuts at the first equals sign, which may not come first. */
  lemma PairExact(line: string, left: string, right: string)
    requires '=' !in left
    ensures SplitPair(left + "=" + right) == if left == "" then NoPair else Pair(Trim(left), Trim(right))
    ensures '=' !in line ==> SplitPair(line) == NoPair
  {
    hide Trim;
    EqualsAfter(left, right);
    var s := left + "=" + right;
    assert s[..|left|] == left && s[|left| + 1..] == right;
    NoEquals(line);
  }

  /** The header lines of an area, spelled out. */
  lemma HeaderTexts(v: nat)
    ensures HeaderText(Machines, v) == "# BMX-SCHEMA machines=" + Decimal(v)
    ensures HeaderText(ConfigManagedBlock, v) == "# BMX-SCHEMA config_managed_block=" + Decimal(v)
    ensures HeaderText(CmdlineManagedKeys, v) == "# BMX-SCHEMA cmdline_managed=" + Decimal(v)
    ensures HeaderText(Network, v) == "# BMX-SCHEMA network=" + Decimal(v)
    ensures HeaderText(Settings, v) == "# BMX-SCHEMA settings=" + Decimal(v)
    ensures HeaderText(UpdateState, v) == "# BMX-SCHEMA update_state=" + Decimal(v)
  {
    hide Decimal;
    assert SCHEMA_PREFIX + "machines" + "=" == "# BMX-SCHEMA machines=";
    assert SCHEMA_PREFIX + "config_managed_block" + "=" == "# BMX-SCHEMA config_managed_block=";
    assert SCHEMA_PREFIX + "cmdline_managed" + "=" == "# BMX-SCHEMA cmdline_managed=";
    assert SCHEMA_PREFIX + "network" + "=" == "# BMX-SCHEMA network=";
    assert SCHEMA_PREFIX + "settings" + "=" == "# BMX-SCHEMA settings=";
    assert SCHEMA_PREFIX + "update_state" + "=" == "# BMX-SCHEMA update_state=";
  }

  /** A line is a header of the area exactly when it is the prefix, the area's name, an equals sign and a version. */
  predicate HeaderSpelled(line: string, area: Area, v: nat) {
    var start := "# BMX-SCHEMA " + AreaIdentifier(area) + "=";
    |line| >= |start| && line[..|start|] == start && ParsePositiveDecimal(line[|start|..]) == Some(v)
  }

  lemma HeaderExact(line: string, area: Area, v: nat)
    ensures ParseHeader(line, area) == Version(v) <==> HeaderSpelled(line, area, v)
    ensures ParseHeader(line, area).NotHeader? <==> !(|line| >= 12 && line[..12] == "# BMX-SCHEMA")
  {
    hide ParsePositiveDecimal, AreaIdentifier;
    var id := AreaIdentifier(area);
    var start := SCHEMA_PREFIX + id + "=";
    IdentifierPlain(area);
    if HeaderSpelled(line, area, v) {
      var digits := line[|start|..];
      SpelledParts(line, id, digits);
      EqualsAfter(id, digits);
    }
    if ParseHeader(line, area) == Version(v) {
      HeaderIsSpelled(line, area, v);
    }
  }

  lemma HeaderIsSpelled(line: string, area: Area, v: nat)
    requires ParseHeader(line, area) == Version(v)
    ensures HeaderSpelled(line, area, v)
  {
    hide ParsePositiveDecimal, AreaIdentifier;
    var id := AreaIdentifier(area);
    var start := SCHEMA_PREFIX + id + "=";
    var rest := line[|SCHEMA_PREFIX|..];
    var e := EqualsAt(rest);
    assert line == SCHEMA_PREFIX + rest && rest == id + "=" + rest[e + 1..];
    assert line == start + rest[e + 1..];
    assert line[..|start|] == start && line[|start|..] == rest[e + 1..];
  }

  lemma SpelledParts(line: string, id: string, digits: string)
    requires line == SCHEMA_PREFIX + id + "=" + digits
    ensures StartsWith(line, SCHEMA_WORD) && StartsWith(line, SCHEMA_PREFIX) && line[|SCHEMA_PREFIX|..] == id + "=" + digits
    ensures (id + "=" + digits)[..|id|] == id && (id + "=" + digits)[|id| + 1..] == digits
  {
    var rest := id + "=" + digits;
    assert line == SCHEMA_PREFIX + rest;
    assert SCHEMA_PREFIX[..|SCHEMA_WORD|] == SCHEMA_WORD;
    assert line[..|SCHEMA_WORD|] == SCHEMA_PREFIX[..|SCHEMA_WORD|];
  }

  // ---------------------------------------------------------------- the lines of a file

  /** The trimmed texts of the lines. */
  function Texts(lines: seq<Line>): (r: seq<string>)
    ensures |r| == |lines| && forall i :: 0 <= i < |r| ==> r[i] == Trim(lines[i].text)
  {
    seq(|lines|, i requires 0 <= i < |lines| => Trim(lines[i].text))
  }

  /** The versions of an area's headers, in order. */
  function Headers(area: Area, texts: seq<string>): seq<nat> {
    if texts == [] then []
    else
      var h := ParseHeader(texts[|texts| - 1], area);
      Headers(area, texts[..|texts| - 1]) + if h.Version? then [h.v] else []
  }

  /** Everything that is no blank line and no header. */
  predicate Content(area: Area, text: string) {
    text != "" && ParseHeader(text, area).NotHeader?
  }

  predicate AllDistinct(s: seq<string>) {
    forall i, j :: 0 <= i < j < |s| ==> s[i] != s[j]
  }

  function FirstOr(s: seq<nat>, otherwise: nat): nat { if s == [] then otherwise else s[0] }

  function OptionOf(s: seq<nat>): Option<nat> { if s == [] then None else Some(s[0]) }

  lemma DistinctSnoc(s: seq<string>, x: string)
    ensures AllDistinct(s + [x]) <==> AllDistinct(s) && x !in s
  {
    var r := s + [x];
    assert r[|s|] == x && forall i :: 0 <= i < |s| ==> r[i] == s[i];
  }

  lemma ScanSnoc<S>(step: (S, string) -> Step<S>, lines: seq<Line>, st: S)
    requires lines != []
    ensures var n := |lines| - 1;
            Scan(step, lines, st) ==
            match Scan(step, lines[..n], st) case Stop(d) => Stop(d) case Next(st') => step(st', Trim(lines[n].text))
  {
    hide Trim;
    var n := |lines| - 1;
    assert lines == lines[..n] + [lines[n]] && [lines[n]][1..] == [];
    ScanAppend(step, lines[..n], [lines[n]], st);
    if Scan(step, lines[..n], st).Next? {
      var r := step(Scan(step, lines[..n], st).state, Trim(lines[n].text));
      assert Scan(step, [lines[n]], Scan(step, lines[..n], st).state) == r;
    }
  }

  lemma TextsSnoc(lines: seq<Line>)
    requires lines != []
    ensures Texts(lines)[..|lines| - 1] == Texts(lines[..|lines| - 1])
  {
    hide Trim;
  }

  // ---------------------------------------------------------------- settings*.txt

  predicate SettingsComment(text: string) { text != "" && (text[0] == '#' || text[0] == ';') }

  predicate SettingsPair(text: string) {
    Content(Settings, text) && !SettingsComment(text)
  }

  /** The keys of the setting lines, in order. */
  function SettingKeys(texts: seq<string>): seq<string> {
    if texts == [] then []
    else
      var t := texts[|texts| - 1];
      SettingKeys(texts[..|texts| - 1])
      + if SettingsPair(t) && SplitSettingsKeyValue(t).Pair? then [SplitSettingsKeyValue(t).key] else []
  }

  /** No malformed header, and every other line is blank, a comment or a setting. */
  predicate SettingsLineOk(text: string) {
    !ParseHeader(text, Settings).Malformed? && (SettingsPair(text) ==> SplitSettingsKeyValue(text).Pair?)
  }

  predicate SettingsGood(texts: seq<string>) {
    && (forall i :: 0 <= i < |texts| ==> SettingsLineOk(texts[i]))
    && |Headers(Settings, texts)| <= 1 && |SettingKeys(texts)| <= MAX_SETTINGS && AllDistinct(SettingKeys(texts))
  }

  lemma SettingsGoodSnoc(texts: seq<string>)
    requires texts != []
    ensures var front, t := texts[..|texts| - 1], texts[|texts| - 1];
            SettingsGood(texts) <==>
              && SettingsGood(front) && SettingsLineOk(t)
              && (ParseHeader(t, Settings).Version? ==> Headers(Settings, front) == [])
              && (SettingsPair(t) && SplitSettingsKeyValue(t).Pair? ==>
                    |SettingKeys(front)| < MAX_SETTINGS && SplitSettingsKeyValue(t).key !in SettingKeys(front))
  {
    hide ParseHeader, SplitSettingsKeyValue, SettingsLineOk, AllDistinct;
    var front, t := texts[..|texts| - 1], texts[|texts| - 1];
    assert texts == front + [t];
    if SettingsPair(t) && SplitSettingsKeyValue(t).Pair? {
      DistinctSnoc(SettingKeys(front), SplitSettingsKeyValue(t).key);
    }
    assert Headers(Settings, front) + [] == Headers(Settings, front) && SettingKeys(front) + [] == SettingKeys(front);
  }

  lemma {:induction false} SettingsScanExact(lines: seq<Line>)
    ensures var r := Scan(SettingsStep, lines, SETTINGS_START);
            && (r.Next? <==> SettingsGood(Texts(lines)))
            && (r.Next? ==> r.state == SettingsState(OptionOf(Headers(Settings, Texts(lines))), SettingKeys(Texts(lines))))
  {
    hide ParseHeader, SplitSettingsKeyValue, Trim, SettingsGood;
    if lines == [] {
      NoLinesGood();
    } else {
      var n := |lines| - 1;
      SettingsScanExact(lines[..n]);
      TextsSnoc(lines);
      SettingsGoodSnoc(Texts(lines));
      ScanSnoc(SettingsStep, lines, SETTINGS_START);
      NoHeaderInNothing(Settings);
    }
  }

  lemma NoLinesGood()
    ensures SettingsGood([]) && Headers(Settings, []) == [] && SettingKeys([]) == []
  {
  }

  /**
   A settings file has version v exactly when it is readable, no line is a malformed
   header, at most one is a header, every other line is blank, a comment or a setting,
   the at most 512 keys are pairwise distinct, and v is the header's version, 1 without
   one.
   */
  lemma SettingsFileExact(content: string, v: nat)
    ensures DetectSettingsFile(content) == Valid(v) <==>
              && SafeText(content) && Split(content).clean && SettingsGood(Texts(Split(content).lines))
              && v == FirstOr(Headers(Settings, Texts(Split(content).lines)), 1)
  {
    hide SafeText, Split, SettingsGood, Headers, SettingKeys, SettingsStep;
    SettingsScanExact(Split(content).lines);
    SettingsStops(Split(content).lines, SETTINGS_START);
  }

  /** A key set twice is never accepted. */
  lemma RepeatedSettingIsRefused(content: string, v: nat, i: nat, j: nat)
    requires i < j < |Split(content).lines|
    requires var t := Texts(Split(content).lines);
             SettingsPair(t[i]) && SettingsPair(t[j]) && SplitSettingsKeyValue(t[i]).Pair?
             && SplitSettingsKeyValue(t[j]).Pair? && SplitSettingsKeyValue(t[i]).key == SplitSettingsKeyValue(t[j]).key
    ensures DetectSettingsFile(content) != Valid(v)
  {
    hide SafeText, Split, Headers, SettingsStep, SplitSettingsKeyValue, SettingsPair, DetectSettingsFile, SettingKeys;
    var t := Texts(Split(content).lines);
    SettingsFileExact(content, v);
    KeysListed(t, i, j);
  }

  lemma {:induction false} KeyListed(texts: seq<string>, i: nat)
    requires i < |texts| && SettingsPair(texts[i]) && SplitSettingsKeyValue(texts[i]).Pair?
    ensures SplitSettingsKeyValue(texts[i]).key in SettingKeys(texts)
  {
    hide SplitSettingsKeyValue, SettingsPair;
    if i < |texts| - 1 {
      KeyListed(texts[..|texts| - 1], i);
    }
  }

  lemma {:induction false} KeysListed(texts: seq<string>, i: nat, j: nat)
    requires i < j < |texts| && SettingsPair(texts[i]) && SplitSettingsKeyValue(texts[i]).Pair?
    requires SettingsPair(texts[j]) && SplitSettingsKeyValue(texts[j]).Pair?
    requires SplitSettingsKeyValue(texts[i]).key == SplitSettingsKeyValue(texts[j]).key
    ensures !AllDistinct(SettingKeys(texts))
  {
    hide SplitSettingsKeyValue, SettingsPair, AllDistinct;
    var front, t := texts[..|texts| - 1], texts[|texts| - 1];
    if SettingsPair(t) && SplitSettingsKeyValue(t).Pair? {
      DistinctSnoc(SettingKeys(front), SplitSettingsKeyValue(t).key);
    } else {
      assert SettingKeys(front) + [] == SettingKeys(front);
    }
    if j < |texts| - 1 {
      KeysListed(front, i, j);
    } else {
      KeyListed(front, i);
    }
  }

  // ---------------------------------------------------------------- machines*.ini

  /** The kind of a section line: video, scaling or machine, with an identifier. */
  function SectionKind(text: string): Option<string> {
    if |text| < 4 || text[|text| - 1] != ']' then None
    else
      var inside := text[1..|text| - 1];
      var e := FirstBlank(inside);
      if e == 0 || e == |inside| then None
      else
        var kind := inside[..e];
        if (kind == "video" || kind == "scaling" || kind == "machine") && IsIdentifier(Trim(inside[e + 1..])) then Some(kind) else None
  }

  lemma {:induction false} FirstBlankExact(s: string)
    ensures var e := FirstBlank(s); (e < |s| ==> IsBlank(s[e])) && forall i :: 0 <= i < e ==> !IsBlank(s[i])
  {
    if s != "" && !IsBlank(s[0]) {
      FirstBlankExact(s[1..]);
    }
  }

  lemma {:induction false} FirstBlankAfter(kind: string, sep: char, rest: string)
    requires IsBlank(sep) && forall i :: 0 <= i < |kind| ==> !IsBlank(kind[i])
    ensures FirstBlank(kind + [sep] + rest) == |kind|
  {
    var s := kind + [sep] + rest;
    if kind == "" {
      assert s[0] == sep;
    } else {
      assert s[1..] == kind[1..] + [sep] + rest;
      FirstBlankAfter(kind[1..], sep, rest);
    }
  }

  /** A section line is a bracketed kind, a blank and an identifier. */
  lemma SectionSpelled(kind: string, sep: char, rest: string)
    requires kind == "video" || kind == "scaling" || kind == "machine"
    requires sep == ' ' || sep == '\t'
    ensures SectionKind("[" + kind + [sep] + rest + "]") == if IsIdentifier(Trim(rest)) then Some(kind) else None
  {
    hide IsIdentifier, Trim;
    var text := "[" + kind + [sep] + rest + "]";
    var inside := kind + [sep] + rest;
    assert text[1..|text| - 1] == inside;
    FirstBlankAfter(kind, sep, rest);
    assert inside[..|kind|] == kind && inside[|kind| + 1..] == rest;
  }

  predicate IsSection(text: string) {
    Content(Machines, text) && text[0] == '['
  }

  predicate MachinePair(text: string) {
    Content(Machines, text) && text[0] != '#' && text[0] != '['
  }

  /** No malformed header; a section is a known one, any other line blank, a comment or a pair. */
  predicate MachineLineOk(text: string) {
    && !ParseHeader(text, Machines).Malformed?
    && (IsSection(text) ==> SectionKind(text).Some?)
    && (MachinePair(text) ==> SplitKeyValue(text).Pair?)
  }

  /** The kinds of the sections, in order. */
  function SectionKinds(texts: seq<string>): seq<string> {
    if texts == [] then []
    else
      var t := texts[|texts| - 1];
      SectionKinds(texts[..|texts| - 1]) + if IsSection(t) && SectionKind(t).Some? then [SectionKind(t).value] else []
  }

  /** The pairs before the first section, in order. */
  function Preamble(texts: seq<string>): seq<KeyValue> {
    if texts == [] then []
    else
      var front, t := texts[..|texts| - 1], texts[|texts| - 1];
      Preamble(front) + if MachinePair(t) && SectionKinds(front) == [] && SplitKeyValue(t).Pair? then [SplitKeyValue(t)] else []
  }

  /** format = a positive number. */
  predicate FormatPair(p: KeyValue) {
    p.Pair? && p.key == "format" && ParsePositiveDecimal(p.value).Some?
  }

  /** Lines as a machine file has them: at most one header, one format number first, and only then sections. */
  predicate MachineGood(texts: seq<string>) {
    && MachineLinesOk(texts) && |Headers(Machines, texts)| <= 1 && FormatOnce(Preamble(texts))
    && (SectionKinds(texts) != [] ==> Preamble(texts) != [])
  }

  predicate MachineLinesOk(texts: seq<string>) {
    forall i :: 0 <= i < |texts| ==> MachineLineOk(texts[i])
  }

  /** Nothing, or one format number. */
  predicate FormatOnce(pairs: seq<KeyValue>) {
    pairs == [] || (|pairs| == 1 && FormatPair(pairs[0]))
  }

  function FormatOf(texts: seq<string>): Option<nat> {
    if Preamble(texts) == [] || !FormatPair(Preamble(texts)[0]) then None else ParsePositiveDecimal(Preamble(texts)[0].value)
  }

  function MachineStateOf(texts: seq<string>): MachineState {
    MachineState(FormatOf(texts), OptionOf(Headers(Machines, texts)), SectionKinds(texts) != [],
                 "video" in SectionKinds(texts), "machine" in SectionKinds(texts))
  }

  lemma SectionStepIsKind(st: MachineState, text: string)
    requires text != ""
    ensures SectionStep(st, text).Next? <==> SectionKind(text).Some? && st.format.Some?
    ensures SectionStep(st, text).Next? ==>
              SectionStep(st, text).state
              == st.(section := true, video := st.video || SectionKind(text).value == "video",
                     machine := st.machine || SectionKind(text).value == "machine")
  {
    hide IsIdentifier, Trim, FirstBlank;
  }

  /** One line more: what MachineGood asks of it. */
  predicate MachineAdds(front: seq<string>, t: string) {
    && MachineLineOk(t)
    && (ParseHeader(t, Machines).Version? ==> Headers(Machines, front) == [])
    && (IsSection(t) ==> Preamble(front) != [])
    && (MachinePair(t) && SectionKinds(front) == [] ==> Preamble(front) == [] && FormatPair(SplitKeyValue(t)))
  }

  lemma MachineGoodSnoc(texts: seq<string>)
    requires texts != []
    ensures MachineGood(texts) <==> MachineGood(texts[..|texts| - 1]) && MachineAdds(texts[..|texts| - 1], texts[|texts| - 1])
  {
    var front, t := texts[..|texts| - 1], texts[|texts| - 1];
    PreambleSnoc(texts);
    SectionsSnoc(texts);
    HeadersSnoc(Machines, texts);
    KindsOfHeader(t);
    MachineLinesSnoc(texts);
    if SplitKeyValue(t).Pair? {
      FormatOnceSnoc(Preamble(front), SplitKeyValue(t));
    }
    hide ParseHeader, SplitKeyValue, SectionKind, FormatPair, Preamble, SectionKinds, Headers, IsSection, MachinePair, MachineLineOk;
    hide MachineLinesOk, FormatOnce;
  }

  lemma MachineLinesSnoc(texts: seq<string>)
    requires texts != []
    ensures MachineLinesOk(texts) <==> MachineLinesOk(texts[..|texts| - 1]) && MachineLineOk(texts[|texts| - 1])
  {
    hide MachineLineOk;
    assert texts == texts[..|texts| - 1] + [texts[|texts| - 1]];
  }

  lemma FormatOnceSnoc(pairs: seq<KeyValue>, p: KeyValue)
    ensures FormatOnce(pairs + [p]) <==> pairs == [] && FormatPair(p)
    ensures pairs + [p] != []
  {
    hide FormatPair;
    assert pairs + [p] != [] && (pairs == [] ==> pairs + [p] == [p]);
    assert pairs != [] ==> |pairs + [p]| > 1;
  }

  /** A line is at most one of header, section and pair, and an accepted section or pair reads as one. */
  lemma KindsOfHeader(t: string)
    ensures !(IsSection(t) && MachinePair(t))
    ensures ParseHeader(t, Machines).Version? ==> !IsSection(t) && !MachinePair(t)
    ensures MachineLineOk(t) && IsSection(t) ==> SectionKind(t).Some?
    ensures MachineLineOk(t) && MachinePair(t) ==> SplitKeyValue(t).Pair?
  {
    hide ParseHeader, SplitKeyValue, SectionKind;
  }

  lemma PreambleSnoc(texts: seq<string>)
    requires texts != []
    ensures var front, t := texts[..|texts| - 1], texts[|texts| - 1];
            Preamble(texts) == if MachinePair(t) && SectionKinds(front) == [] && SplitKeyValue(t).Pair?
                               then Preamble(front) + [SplitKeyValue(t)] else Preamble(front)
  {
    hide MachinePair, SplitKeyValue, SectionKinds;
    var front := texts[..|texts| - 1];
    assert Preamble(front) + [] == Preamble(front);
  }

  lemma SectionsSnoc(texts: seq<string>)
    requires texts != []
    ensures var front, t := texts[..|texts| - 1], texts[|texts| - 1];
            SectionKinds(texts) == if IsSection(t) && SectionKind(t).Some? then SectionKinds(front) + [SectionKind(t).value] else SectionKinds(front)
  {
    hide IsSection, SectionKind;
    assert SectionKinds(texts[..|texts| - 1]) + [] == SectionKinds(texts[..|texts| - 1]);
  }

  lemma HeadersSnoc(area: Area, texts: seq<string>)
    requires texts != []
    ensures var front, h := texts[..|texts| - 1], ParseHeader(texts[|texts| - 1], area);
            Headers(area, texts) == if h.Version? then Headers(area, front) + [h.v] else Headers(area, front)
  {
    hide ParseHeader;
    assert Headers(area, texts[..|texts| - 1]) + [] == Headers(area, texts[..|texts| - 1]);
  }

  /** One step from the state of the lines so far. */
  lemma MachineStepExact(texts: seq<string>)
    requires texts != [] && MachineGood(texts[..|texts| - 1])
    ensures var front, t := texts[..|texts| - 1], texts[|texts| - 1];
            var r := MachineStep(MachineStateOf(front), t);
            && (r.Next? <==> MachineAdds(front, t))
            && (r.Next? ==> r.state == MachineStateOf(texts))
  {
    hide ParseHeader, MachineStep, MachineGood, MachineAdds, MachineStateOf;
    var t := texts[|texts| - 1];
    if t == "" || !ParseHeader(t, Machines).NotHeader? || t[0] == '#' {
      MachineQuiet(texts);
    } else if t[0] == '[' {
      MachineSection(texts);
    } else {
      MachineSetting(texts);
    }
  }

  lemma FormatIsPreamble(texts: seq<string>)
    requires MachineGood(texts)
    ensures FormatOf(texts).None? <==> Preamble(texts) == []
  {
    hide Preamble, SectionKinds, Headers, MachineLinesOk;
  }

  /** Blank lines, comments and headers. */
  lemma MachineQuiet(texts: seq<string>)
    requires texts != [] && MachineGood(texts[..|texts| - 1])
    requires var t := texts[|texts| - 1]; t == "" || !ParseHeader(t, Machines).NotHeader? || t[0] == '#'
    ensures var front, t := texts[..|texts| - 1], texts[|texts| - 1];
            var r := MachineStep(MachineStateOf(front), t);
            && (r.Next? <==> MachineAdds(front, t))
            && (r.Next? ==> r.state == MachineStateOf(texts))
  {
    hide ParseHeader, SplitKeyValue, SectionKind, SectionStep, ParsePositiveDecimal, MachineLinesOk;
    PreambleSnoc(texts);
    SectionsSnoc(texts);
    HeadersSnoc(Machines, texts);
    NoHeaderInNothing(Machines);
    hide Preamble, SectionKinds, Headers, FormatPair;
  }

  lemma MachineSection(texts: seq<string>)
    requires texts != [] && MachineGood(texts[..|texts| - 1])
    requires var t := texts[|texts| - 1]; t != "" && ParseHeader(t, Machines).NotHeader? && t[0] == '['
    ensures var front, t := texts[..|texts| - 1], texts[|texts| - 1];
            var r := MachineStep(MachineStateOf(front), t);
            && (r.Next? <==> MachineAdds(front, t))
            && (r.Next? ==> r.state == MachineStateOf(texts))
  {
    hide ParseHeader, SplitKeyValue, SectionKind, SectionStep, ParsePositiveDecimal, MachineLinesOk;
    var front, t := texts[..|texts| - 1], texts[|texts| - 1];
    PreambleSnoc(texts);
    SectionsSnoc(texts);
    HeadersSnoc(Machines, texts);
    FormatIsPreamble(front);
    SectionStepIsKind(MachineStateOf(front), t);
    hide Preamble, SectionKinds, Headers, FormatPair;
  }

  lemma MachineSetting(texts: seq<string>)
    requires texts != [] && MachineGood(texts[..|texts| - 1])
    requires var t := texts[|texts| - 1]; t != "" && ParseHeader(t, Machines).NotHeader? && t[0] != '[' && t[0] != '#'
    ensures var front, t := texts[..|texts| - 1], texts[|texts| - 1];
            var r := MachineStep(MachineStateOf(front), t);
            && (r.Next? <==> MachineAdds(front, t))
            && (r.Next? ==> r.state == MachineStateOf(texts))
  {
    hide ParseHeader, SplitKeyValue, SectionKind, SectionStep, ParsePositiveDecimal, MachineLinesOk;
    var front, p := texts[..|texts| - 1], SplitKeyValue(texts[|texts| - 1]);
    PreambleSnoc(texts);
    SectionsSnoc(texts);
    HeadersSnoc(Machines, texts);
    FormatIsPreamble(front);
    FormatRead(front);
    FormatRead(texts);
    hide Preamble, SectionKinds, Headers, FormatOf;
    if Preamble(front) == [] {
      assert Preamble(front) + [p] == [p];
    }
  }

  lemma FormatRead(texts: seq<string>)
    ensures Preamble(texts) == [] ==> FormatOf(texts) == None
    ensures Preamble(texts) != [] && FormatPair(Preamble(texts)[0]) ==> FormatOf(texts) == ParsePositiveDecimal(Preamble(texts)[0].value)
  {
    hide Preamble;
  }

  lemma {:induction false} MachineScanExact(lines: seq<Line>)
    ensures var r := Scan(MachineStep, lines, MACHINE_START);
            && (r.Next? <==> MachineGood(Texts(lines)))
            && (r.Next? ==> r.state == MachineStateOf(Texts(lines)))
  {
    hide MachineStep, Trim, MachineGood, MachineAdds, MachineStateOf;
    if lines == [] {
      NoMachineLines();
    } else {
      var n := |lines| - 1;
      MachineScanExact(lines[..n]);
      TextsSnoc(lines);
      MachineGoodSnoc(Texts(lines));
      ScanSnoc(MachineStep, lines, MACHINE_START);
      if MachineGood(Texts(lines)[..n]) {
        MachineStepExact(Texts(lines));
      }
    }
  }

  lemma NoMachineLines()
    ensures MachineGood([]) && MachineStateOf([]) == MACHINE_START
  {
  }

  /**
   A machine file has version v exactly when it is readable, its lines are in order,
   a format number w comes before the sections, there is a video and a machine section,
   and v is w without a header, or the header's version where w is 1 or that version.
   */
  lemma MachineFileExact(content: string, v: nat)
    ensures DetectMachineFile(content) == Valid(v) <==>
              var texts := Texts(Split(content).lines);
              && SafeText(content) && Split(content).clean && MachineGood(texts)
              && FormatOf(texts).Some? && "video" in SectionKinds(texts) && "machine" in SectionKinds(texts)
              && v == FirstOr(Headers(Machines, texts), FormatOf(texts).value)
              && (FormatOf(texts).value == 1 || FormatOf(texts).value == v)
  {
    hide SafeText, Split, MachineGood, Headers, SectionKinds, FormatOf, MachineStep;
    MachineScanExact(Split(content).lines);
    MachineStops(Split(content).lines, MACHINE_START);
  }

  // ---------------------------------------------------------------- the managed block

  predicate BlockContent(text: string) {
    Content(ConfigManagedBlock, text) && text[0] != '#'
  }

  predicate BlockPair(text: string) { BlockContent(text) && text != SELECTOR }

  predicate BlockSelector(text: string) { BlockContent(text) && text == SELECTOR }

  /** The keys of the block's settings, in order. */
  function BlockKeys(texts: seq<string>): seq<string> {
    if texts == [] then []
    else
      var t := texts[|texts| - 1];
      BlockKeys(texts[..|texts| - 1]) + if BlockPair(t) && SplitKeyValue(t).Pair? then [SplitKeyValue(t).key] else []
  }

  function Selectors(texts: seq<string>): nat {
    if texts == [] then 0 else Selectors(texts[..|texts| - 1]) + if BlockSelector(texts[|texts| - 1]) then 1 else 0
  }

  /** No malformed header, and every other line is blank, a comment, the selector or a setting the block may have. */
  predicate BlockLineOk(text: string) {
    && !ParseHeader(text, ConfigManagedBlock).Malformed?
    && (BlockPair(text) ==> SplitKeyValue(text).Pair? && SplitKeyValue(text).key in BLOCK_KEYS)
  }

  predicate BlockLinesOk(texts: seq<string>) {
    forall i :: 0 <= i < |texts| ==> BlockLineOk(texts[i])
  }

  predicate BlockGood(texts: seq<string>) {
    && BlockLinesOk(texts)
    && |Headers(ConfigManagedBlock, texts)| <= 1 && Selectors(texts) <= 1
    && |BlockKeys(texts)| <= MAX_BLOCK_KEYS && AllDistinct(BlockKeys(texts))
  }

  function BlockStateOf(texts: seq<string>): BlockState {
    BlockState(true, false, OptionOf(Headers(ConfigManagedBlock, texts)), Selectors(texts) != 0, BlockKeys(texts))
  }

  predicate BlockAdds(front: seq<string>, t: string) {
    && BlockLineOk(t)
    && (ParseHeader(t, ConfigManagedBlock).Version? ==> Headers(ConfigManagedBlock, front) == [])
    && (BlockSelector(t) ==> Selectors(front) == 0)
    && (BlockPair(t) ==>
          |BlockKeys(front)| < MAX_BLOCK_KEYS && (SplitKeyValue(t).Pair? ==> SplitKeyValue(t).key !in BlockKeys(front)))
  }

  lemma BlockKeysSnoc(texts: seq<string>)
    requires texts != []
    ensures var front, t := texts[..|texts| - 1], texts[|texts| - 1];
            BlockKeys(texts) == if BlockPair(t) && SplitKeyValue(t).Pair? then BlockKeys(front) + [SplitKeyValue(t).key] else BlockKeys(front)
  {
    hide BlockPair, SplitKeyValue;
    assert BlockKeys(texts[..|texts| - 1]) + [] == BlockKeys(texts[..|texts| - 1]);
  }

  lemma SelectorsSnoc(texts: seq<string>)
    requires texts != []
    ensures Selectors(texts) == Selectors(texts[..|texts| - 1]) + if BlockSelector(texts[|texts| - 1]) then 1 else 0
  {
    hide BlockSelector;
  }

  lemma BlockGoodSnoc(texts: seq<string>)
    requires texts != []
    ensures BlockGood(texts) <==> BlockGood(texts[..|texts| - 1]) && BlockAdds(texts[..|texts| - 1], texts[|texts| - 1])
  {
    var front, t := texts[..|texts| - 1], texts[|texts| - 1];
    BlockKeysSnoc(texts);
    SelectorsSnoc(texts);
    HeadersSnoc(ConfigManagedBlock, texts);
    if SplitKeyValue(t).Pair? {
      DistinctSnoc(BlockKeys(front), SplitKeyValue(t).key);
    }
    BlockLinePair(t);
    BlockLinesSnoc(texts);
    hide ParseHeader, SplitKeyValue, BlockKeys, Selectors, Headers, BlockPair, BlockSelector, AllDistinct, BlockLineOk, BlockLinesOk;
  }

  lemma BlockLinesSnoc(texts: seq<string>)
    requires texts != []
    ensures BlockLinesOk(texts) <==> BlockLinesOk(texts[..|texts| - 1]) && BlockLineOk(texts[|texts| - 1])
  {
    hide BlockLineOk;
    assert texts == texts[..|texts| - 1] + [texts[|texts| - 1]];
  }

  lemma BlockLinePair(t: string)
    ensures BlockLineOk(t) && BlockPair(t) ==> SplitKeyValue(t).Pair?
  {
  }

  /** One step inside the block, on a line that is no marker. */
  lemma BlockStepExact(texts: seq<string>)
    requires texts != [] && BlockGood(texts[..|texts| - 1]) && !IsMarkerLine(texts[|texts| - 1])
    ensures var front, t := texts[..|texts| - 1], texts[|texts| - 1];
            var r := BlockStep(BlockStateOf(front), t);
            && (r.Next? <==> BlockAdds(front, t))
            && (r.Next? ==> r.state == BlockStateOf(texts))
  {
    hide ParseHeader, SplitKeyValue;
    BlockKeysSnoc(texts);
    SelectorsSnoc(texts);
    HeadersSnoc(ConfigManagedBlock, texts);
    NoHeaderInNothing(ConfigManagedBlock);
    hide BlockKeys, Selectors, Headers;
  }

  lemma {:induction false} BlockScanExact(inner: seq<Line>)
    requires Lacks(inner, BEGIN_MARKER) && Lacks(inner, END_MARKER)
    ensures var r := Scan(BlockStep, inner, BLOCK_OPEN);
            && (r.Next? <==> BlockGood(Texts(inner)))
            && (r.Next? ==> r.state == BlockStateOf(Texts(inner)))
  {
    hide BlockStep, Trim, BlockGood, BlockAdds, BlockStateOf;
    if inner == [] {
      NoBlockLines();
    } else {
      var n := |inner| - 1;
      BlockScanExact(inner[..n]);
      TextsSnoc(inner);
      BlockGoodSnoc(Texts(inner));
      ScanSnoc(BlockStep, inner, BLOCK_OPEN);
      assert !IsMarkerLine(Texts(inner)[n]);
      if BlockGood(Texts(inner)[..n]) {
        BlockStepExact(Texts(inner));
      }
    }
  }

  lemma NoBlockLines()
    ensures BlockGood([]) && BlockStateOf([]) == BLOCK_OPEN
  {
  }

  /** The file is a block in place: text outside it, the two markers, and good lines with a key between them. */
  predicate BlockFile(content: string, p: Parts, v: nat) {
    && SafeText(content) && content == Join(Whole(p)) && WellFormed(Whole(p)) && InPlace(p)
    && BlockGood(Texts(p.inner)) && BlockKeys(Texts(p.inner)) != []
    && v == FirstOr(Headers(ConfigManagedBlock, Texts(p.inner)), 1)
  }

  lemma BlockFileIsFile(content: string, p: Parts, v: nat)
    ensures BlockFile(content, p, v) <==>
              FileOf(content, p) && v == if InnerScan(p).state.header.Some? then InnerScan(p).state.header.value else 1
  {
    hide SafeText, Join, Whole, WellFormed, BlockGood, BlockKeys, Headers, Scan, Outside;
    if InPlace(p) {
      BlockScanExact(p.inner);
    }
  }

  /**
   A config.txt has version v exactly when it is text outside the block, one begin and
   one end marker, and between them at most one header, at most one selector and one to
   64 settings with distinct keys the block may have; v is the header's version, 1
   without one.
   */
  lemma BlockFileExact(content: string, v: nat)
    ensures DetectBlock(content) == Valid(v) <==> exists p :: BlockFile(content, p, v)
  {
    hide DetectBlock, FileOf, BlockFile, BlockParts, InnerScan;
    if DetectBlock(content) == Valid(v) {
      var p := BlockParts(content);
      PartsAreValid(content, p);
      BlockFileIsFile(content, p, v);
    }
    if exists p :: BlockFile(content, p, v) {
      var p :| BlockFile(content, p, v);
      BlockFileIsFile(content, p, v);
      PartsAreValid(content, p);
    }
  }

  // ---------------------------------------------------------------- the update state

  lemma {:induction false} StateVersionExact(schemas: seq<(Area, nat)>, v: nat)
    ensures StateVersion(schemas) == v && v > 0 <==>
              v > 0 && exists k :: 0 <= k < |schemas| && schemas[k] == (UpdateState, v) && forall j :: 0 <= j < k ==> schemas[j].0 != UpdateState
  {
    if schemas != [] && !schemas[0].0.UpdateState? {
      StateVersionExact(schemas[1..], v);
      assert forall j :: 0 < j < |schemas| ==> schemas[j] == schemas[1..][j - 1];
      if v > 0 && StateVersion(schemas[1..]) == v {
        var k :| 0 <= k < |schemas[1..]| && schemas[1..][k] == (UpdateState, v) && forall j :: 0 <= j < k ==> schemas[1..][j].0 != UpdateState;
        assert schemas[k + 1] == (UpdateState, v);
      }
      if k :| 0 <= k < |schemas| && schemas[k] == (UpdateState, v) && forall j :: 0 <= j < k ==> schemas[j].0 != UpdateState {
        assert schemas[1..][k - 1] == (UpdateState, v);
      }
    }
  }

  /** The content is that of the only file at the path. */
  predicate OnlyAt(files: seq<File>, path: string, content: string) {
    exists i :: 0 <= i < |files| && files[i] == File(path, content) && forall j :: 0 <= j < |files| && j != i ==> files[j].path != path
  }

  lemma {:induction false} LastAtOnly(files: seq<File>, path: string, content: string)
    ensures OnlyAt(files, path, content) <==> LastAt(files, path) == Some(content) && !Twice(files, path)
  {
    if files != [] {
      var n := |files| - 1;
      LastAtOnly(files[..n], path, content);
      if files[n].path != path {
        OnlyAtBefore(files, path, content);
        TwiceBefore(files, path);
      }
    }
  }

  lemma OnlyAtBefore(files: seq<File>, path: string, content: string)
    requires files != [] && files[|files| - 1].path != path
    ensures OnlyAt(files, path, content) <==> OnlyAt(files[..|files| - 1], path, content)
  {
    var n := |files| - 1;
    assert forall i :: 0 <= i < n ==> files[..n][i] == files[i];
    if OnlyAt(files[..n], path, content) {
      var i :| 0 <= i < n && files[..n][i] == File(path, content) && forall j :: 0 <= j < n && j != i ==> files[..n][j].path != path;
      assert files[i] == File(path, content);
    }
    if OnlyAt(files, path, content) {
      var i :| 0 <= i < |files| && files[i] == File(path, content) && forall j :: 0 <= j < |files| && j != i ==> files[j].path != path;
      assert files[..n][i] == File(path, content);
    }
  }

  lemma TwiceBefore(files: seq<File>, path: string)
    requires files != [] && files[|files| - 1].path != path
    ensures Twice(files, path) <==> Twice(files[..|files| - 1], path)
  {
    var n := |files| - 1;
    if Twice(files, path) {
      var i, j :| 0 <= i < j < |files| && files[i].path == path && files[j].path == path;
      assert files[..n][i].path == path && files[..n][j].path == path;
    }
    if Twice(files[..n], path) {
      var i, j :| 0 <= i < j < n && files[..n][i].path == path && files[..n][j].path == path;
      assert files[i].path == path && files[j].path == path;
    }
  }

  /**
   The update state has version v exactly when there is one build information file, it
   parses, v is positive and its first entry for the update state, and journal copies,
   if there are any, leave a usable one.
   */
  lemma UpdateStateExact(reader: StateReader, files: seq<File>, v: nat)
    ensures DetectUpdateState(reader, files) == Valid(v) <==>
              exists content :: OnlyAt(files, "BMX-BUILD.json", content) && StateSays(reader, files, content, v)
  {
    hide LastAt, Twice, StateVersion;
    if DetectUpdateState(reader, files) == Valid(v) {
      var content := LastAt(files, BUILD_PATH).value;
      LastAtOnly(files, BUILD_PATH, content);
      StateVersionExact(reader.parse(content).schemas, v);
      assert StateSays(reader, files, content, v);
    }
    if exists content :: OnlyAt(files, BUILD_PATH, content) && StateSays(reader, files, content, v) {
      var content :| OnlyAt(files, BUILD_PATH, content) && StateSays(reader, files, content, v);
      LastAtOnly(files, BUILD_PATH, content);
      StateVersionExact(reader.parse(content).schemas, v);
    }
  }

  predicate StateSays(reader: StateReader, files: seq<File>, content: string, v: nat) {
    var a, b := LastAt(files, ".bmx-update/transaction/journal.a"), LastAt(files, ".bmx-update/transaction/journal.b");
    var info := reader.parse(content);
    && info.Build? && v > 0
    && (exists k :: 0 <= k < |info.schemas| && info.schemas[k] == (UpdateState, v) && forall j :: 0 <= j < k ==> info.schemas[j].0 != UpdateState)
    && (a.Some? || b.Some? ==> reader.usable(a, b))
  }

  // ---------------------------------------------------------------- cmdline.txt

  /** A token is a bare key, or a key and a value around its first equals sign, neither empty. */
  lemma TokenExact(key: string, value: string)
    requires '=' !in key
    ensures TokenOf(key) == Token(key, None)
    ensures TokenOf(key + "=" + value) == if key == "" || value == "" then BadToken else Token(key, Some(value))
  {
    NoEquals(key);
    EqualsAfter(key, value);
    var t := key + "=" + value;
    assert t[..|key|] == key && t[|key| + 1..] == value;
    assert key[..|key|] == key;
  }

  /** Blank lines and comments. */
  predicate Remark(text: string) { text == "" || text[0] == '#' }

  lemma {:induction false} RemarksScan(lines: seq<Line>)
    ensures Scan(CommentStep, lines, ()).Next? <==> forall i :: 0 <= i < |lines| ==> Remark(Trim(lines[i].text))
  {
    hide Trim;
    if lines != [] {
      RemarksScan(lines[1..]);
      assert forall i :: 0 < i < |lines| ==> lines[i] == lines[1..][i - 1];
    }
  }

  /**
   cmdline.txt is in order around its tokens exactly when it is safe and at most 8192
   bytes, line one at most 4096, its break whole, and every later line blank or a comment.
   */
  lemma CmdlineFileExact(content: string)
    ensures FileFault(content).None? <==>
              && |content| <= MAX_CMDLINE && SafeText(content) && TextEnd(content) <= MAX_LINE && SecondLine(content).Some?
              && var later := Split(content[SecondLine(content).value..]);
                 later.clean && forall i :: 0 <= i < |later.lines| ==> Remark(Trim(later.lines[i].text))
  {
    hide SafeText, Split, Trim, TextEnd, Remark, SecondLine, Scan;
    if SecondLine(content).Some? {
      RemarksScan(Split(content[SecondLine(content).value..]).lines);
    }
  }

  /** The version of an area's tokens is its marker's, and 1 where there is none. */
  lemma {:induction false} MarkerVersionExact(a: Area, own: seq<string>)
    requires OwnGood(a, own)
    ensures forall i :: 0 <= i < |own| && IsMarker(a, own[i]) ==>
              TokenOf(own[i]).Token? && TokenOf(own[i]).value.Some?
              && ParsePositiveDecimal(TokenOf(own[i]).value.value) == Some(MarkerVersion(a, own))
    ensures (forall i :: 0 <= i < |own| ==> !IsMarker(a, own[i])) ==> MarkerVersion(a, own) == 1
  {
    hide TokenOf, ParsePositiveDecimal, SchemaKey;
    if own != [] {
      var front, t := own[..|own| - 1], own[|own| - 1];
      assert forall i :: 0 <= i < |front| ==> front[i] == own[i];
      assert OwnOk(a, t);
      MarkerVersionExact(a, front);
    }
  }

  /** The tokens that do not belong to the area, in order. */
  function Rest(a: Area, ts: seq<string>): seq<string> {
    if ts == [] then []
    else Rest(a, ts[..|ts| - 1]) + if Owns(a, ts[|ts| - 1]) then [] else [ts[|ts| - 1]]
  }

  lemma RestSnoc(a: Area, ts: seq<string>, t: string)
    ensures Rest(a, ts + [t]) == if Owns(a, t) then Rest(a, ts) else Rest(a, ts) + [t]
  {
    hide Owns;
    assert (ts + [t])[..|ts|] == ts;
    assert Rest(a, ts) + [] == Rest(a, ts);
  }

  lemma {:induction false} RestAppend(a: Area, x: seq<string>, y: seq<string>)
    ensures Rest(a, x + y) == Rest(a, x) + Rest(a, y)
    decreases |y|
  {
    hide Owns;
    if y == [] {
      assert x + y == x;
    } else {
      var front := y[..|y| - 1];
      assert (x + y)[..|x + y| - 1] == x + front;
      RestAppend(a, x, front);
    }
  }

  lemma {:induction false} RestOfKept(a: Area, markerOnly: bool, ts: seq<string>)
    ensures Rest(a, Kept(a, markerOnly, ts)) == Rest(a, ts)
  {
    hide Owns, IsMarker;
    if ts != [] {
      var front, t := ts[..|ts| - 1], ts[|ts| - 1];
      assert ts == front + [t];
      RestOfKept(a, markerOnly, front);
      MarkersAreOwned(a, t);
      KeptSnoc(a, markerOnly, front, t);
      RestSnoc(a, Kept(a, markerOnly, front), t);
      RestSnoc(a, front, t);
    }
  }

  lemma {:induction false} RestNone(a: Area, ts: seq<string>)
    requires forall t :: t in ts ==> Owns(a, t)
    ensures Rest(a, ts) == []
  {
    hide Owns;
    if ts != [] {
      RestNone(a, ts[..|ts| - 1]);
    }
  }

  /** A rewrite of an area keeps every token that does not belong to it, in order, whoever it belongs to. */
  lemma RewriteKeepsRest(a: Area, ts: seq<string>, defaults: Option<seq<string>>, v: nat)
    requires 0 < v <= UINT32_MAX
    ensures Rest(a, NewTokens(a, ts, defaults, v)) == Rest(a, ts)
  {
    hide Owns, IsMarker, Marker, Rest, Own, Unmarked, Kept;
    var kept := Kept(a, defaults.None?, ts);
    var added := (if defaults.Some? then Unmarked(a, Own(a, defaults.value)) else []) + [Marker(a, v)];
    RestOfKept(a, defaults.None?, ts);
    MarkerFacts(a, v);
    forall t | t in added
      ensures Owns(a, t)
    {
      if t != Marker(a, v) {
        UnmarkedMembers(a, Own(a, defaults.value), t);
        OwnMembers(a, defaults.value, t);
      }
    }
    RestNone(a, added);
    RestAppend(a, kept, added);
    assert NewTokens(a, ts, defaults, v) == kept + added;
    assert Rest(a, ts) + [] == Rest(a, ts);
  }
}
