/**
 The reading loops of src/update/config_migration.cpp: line cursor, detectors and
 tokenizer as they run over the bytes, each proved against its specification.
 */
module ConfigReaders {
  import opened ConfigText
  import opened ConfigDetect
  import opened ConfigHeaders
  import opened ConfigBlock
  import opened ConfigCmdline
  import opened ConfigPaths
  import opened ConfigApply

  datatype Next = LineRead(text: string, next: nat) | EndOfText | CorruptLine

  /** NextLine: reads the line at `offset`, or says that there is none or that it is corrupt. */
  method NextLine(content: string, offset: nat) returns (r: Next)
    ensures offset > |content| ==> r == CorruptLine
    ensures r == EndOfText <==> offset == |content|
    ensures offset < |content| ==> (r == CorruptLine <==> FirstLine(content[offset..]).None?)
    ensures r.LineRead? ==>
              offset < r.next <= |content| && FirstLine(content[offset..]) == Some(Line(r.text, content[offset..r.next]))
  {
    if offset > |content| { return CorruptLine; }
    if offset == |content| { return EndOfText; }
    var end := offset;
    ghost var rest := content[offset..];
    while end < |content| && content[end] != '\n' && content[end] != '\r'
      invariant offset <= end <= |content| && end - offset <= MAX_LINE
      invariant forall i :: 0 <= i < end - offset ==> !IsBreak(rest[i])
    {
      assert rest[end - offset] == content[end];
      end := end + 1;
      if end - offset > MAX_LINE {
        assert TextEnd(rest) >= end - offset;
        return CorruptLine;
      }
    }
    assert end < |content| ==> rest[end - offset] == content[end];
    assert TextEnd(rest) == end - offset;
    var after := end;
    if after < |content| && content[after] == '\r' {
      after := after + 1;
      if after >= |content| || content[after] != '\n' { return CorruptLine; }
      after := after + 1;
    } else if after < |content| && content[after] == '\n' {
      after := after + 1;
    }
    SliceOfRest(content, offset, end);
    SliceOfRest(content, offset, after);
    return LineRead(content[offset..end], after);
  }

  lemma SliceOfRest(content: string, offset: nat, k: nat)
    requires offset <= k <= |content|
    ensures content[offset..k] == content[offset..][..k - offset]
  {
  }

  /** The lines from here on, scanned from a state. */
  function ScanRest<S>(step: (S, string) -> Step<S>, rest: string, st: S): Step<S> {
    var split := Split(rest);
    var r := Scan(step, split.lines, st);
    if r.Next? && !split.clean then Stop(Corrupt) else r
  }

  lemma ScanRestStep<S>(step: (S, string) -> Step<S>, rest: string, st: S)
    requires rest != ""
    ensures FirstLine(rest).None? ==> ScanRest(step, rest, st) == Stop(Corrupt)
    ensures FirstLine(rest).Some? ==>
              var l := FirstLine(rest).value;
              ScanRest(step, rest, st) ==
              match step(st, Trim(l.text))
              case Stop(d) => Stop(d)
              case Next(st') => ScanRest(step, rest[|l.raw|..], st')
  {
    hide FirstLine, Trim;
    if FirstLine(rest).Some? {
      var l := FirstLine(rest).value;
      var more := Split(rest[|l.raw|..]);
      assert ([l] + more.lines)[1..] == more.lines;
    }
  }

  /** The line loop that the detectors share. */
  method ScanLines<S>(step: (S, string) -> Step<S>, content: string, st: S) returns (r: Step<S>)
    ensures r == ScanRest(step, content, st)
  {
    hide ScanRest, FirstLine, Trim;
    var cursor, state := 0, st;
    assert content[0..] == content;
    while true
      invariant cursor <= |content|
      invariant ScanRest(step, content[cursor..], state) == ScanRest(step, content, st)
      decreases |content| - cursor
    {
      ghost var rest := content[cursor..];
      if cursor < |content| {
        ScanRestStep(step, rest, state);
      }
      var next := NextLine(content, cursor);
      if next.EndOfText? {
        ScanNothing(step, state);
        return Next(state);
      }
      if next.CorruptLine? { return Stop(Corrupt); }
      assert rest[|content[cursor..next.next]|..] == content[next.next..];
      var turn := step(state, Trim(next.text));
      if turn.Stop? { return turn; }
      state := turn.state;
      cursor := next.next;
    }
  }

  lemma ScanNothing<S>(step: (S, string) -> Step<S>, st: S)
    ensures ScanRest(step, "", st) == Next(st)
  {
  }

  method ScanText<S>(step: (S, string) -> Step<S>, content: string, st: S) returns (r: Step<S>)
    ensures r == ScanFile(step, content, st)
  {
    hide SafeText, Scan, Split;
    if !SafeText(content) { return Stop(Corrupt); }
    r := ScanLines(step, content, st);
  }

  // ---------------------------------------------------------------- machines*.ini and settings*.txt

  lemma AggregateStep(detect: string -> Detection, files: seq<File>, version: nat)
    requires files != []
    ensures Aggregate(detect, files, version) ==
              match detect(files[0].content)
              case Valid(v) =>
                if version != 0 && version != v then Corrupt else Aggregate(detect, files[1..], if version == 0 then v else version)
              case d => d
  {
  }

  /** DetectMachines */
  method MachinesLoop(files: seq<File>) returns (d: Detection)
    ensures d == DetectMachines(files)
  {
    hide ScanFile, MachineVerdict, MachineStep, Aggregate;
    if |files| == 0 { return Missing; }
    var mainSeen := false;
    var aggregate: nat := 0;
    assert files[0..] == files;
    for i := 0 to |files|
      invariant Aggregate(DetectMachineFile, files[i..], aggregate) == Aggregate(DetectMachineFile, files, 0)
      invariant mainSeen <==> exists k :: 0 <= k < i && files[k].path == "machines.ini"
    {
      AggregateStep(DetectMachineFile, files[i..], aggregate);
      assert files[i..][1..] == files[i + 1..] && files[i..][0] == files[i];
      if files[i].path == "machines.ini" { mainSeen := true; }
      var scan := ScanText(MachineStep, files[i].content, MACHINE_START);
      if scan.Stop? {
        MachineFileFault(files[i].content);
        return scan.result;
      }
      var verdict := MachineVerdict(scan.state);
      if !verdict.Valid? { return verdict; }
      if aggregate == 0 { aggregate := verdict.version; }
      if aggregate != verdict.version { return Corrupt; }
    }
    AggregateNothing(DetectMachineFile, aggregate);
    assert files[|files|..] == [];
    return if mainSeen then Valid(aggregate) else UnknownFormat;
  }

  lemma AggregateNothing(detect: string -> Detection, version: nat)
    ensures Aggregate(detect, [], version) == Valid(version)
  {
  }

  lemma MachineFileFault(content: string)
    requires ScanFile(MachineStep, content, MACHINE_START).Stop?
    ensures !ScanFile(MachineStep, content, MACHINE_START).result.Valid?
  {
    hide Split, SafeText, MachineStep;
    MachineStops(Split(content).lines, MACHINE_START);
  }

  /** DetectSettings */
  method SettingsLoop(files: seq<File>) returns (d: Detection)
    ensures d == DetectSettings(files)
  {
    hide ScanFile, SettingsStep, Aggregate;
    if |files| == 0 { return Missing; }
    var aggregate: nat := 0;
    assert files[0..] == files;
    for i := 0 to |files|
      invariant Aggregate(DetectSettingsFile, files[i..], aggregate) == Aggregate(DetectSettingsFile, files, 0)
    {
      AggregateStep(DetectSettingsFile, files[i..], aggregate);
      assert files[i..][1..] == files[i + 1..] && files[i..][0] == files[i];
      var scan := ScanText(SettingsStep, files[i].content, SETTINGS_START);
      if scan.Stop? {
        SettingsFileFault(files[i].content);
        return scan.result;
      }
      var version := if scan.state.header.Some? then scan.state.header.value else 1;
      if aggregate == 0 { aggregate := version; }
      if aggregate != version { return Corrupt; }
    }
    AggregateNothing(DetectSettingsFile, aggregate);
    assert files[|files|..] == [];
    return Valid(aggregate);
  }

  lemma SettingsFileFault(content: string)
    requires ScanFile(SettingsStep, content, SETTINGS_START).Stop?
    ensures !ScanFile(SettingsStep, content, SETTINGS_START).result.Valid?
  {
    hide Split, SafeText, SettingsStep;
    SettingsStops(Split(content).lines, SETTINGS_START);
  }

  // ---------------------------------------------------------------- the managed block

  lemma {:induction false} MarkerSnoc(lines: seq<Line>, l: Line, marker: string)
    ensures MarkerAt(lines + [l], marker) ==
              if MarkerAt(lines, marker) < |lines| || Trim(l.text) == marker then MarkerAt(lines, marker) else |lines| + 1
  {
    hide Trim;
    if lines == [] {
      assert lines + [l] == [l] && [l][1..] == [];
    } else {
      assert (lines + [l])[1..] == lines[1..] + [l] && (lines + [l])[0] == lines[0];
      MarkerSnoc(lines[1..], l, marker);
    }
  }

  /** Where the lines read so far put the bounds. */
  predicate BoundsSoFar(lines: seq<Line>, begun: bool, ended: bool, b: Bounds) {
    var first, last := MarkerAt(lines, BEGIN_MARKER), MarkerAt(lines, END_MARKER);
    && (begun <==> first < |lines|) && (begun ==> b.start == |Join(lines[..first + 1])|)
    && (ended <==> last < |lines|) && (ended ==> b.end == |Join(lines[..last])|)
  }

  /** What one line does to the bounds: a marker sets one, nothing else moves them. */
  lemma BoundsStep(lines: seq<Line>, l: Line, st: BlockState, b: Bounds, c: Bounds)
    requires BoundsSoFar(lines, st.begun, st.ended, b) && BlockStep(st, Trim(l.text)).Next?
    requires c.start == if Trim(l.text) == BEGIN_MARKER then |Join(lines + [l])| else b.start
    requires c.end == if Trim(l.text) == END_MARKER then |Join(lines)| else b.end
    ensures var st' := BlockStep(st, Trim(l.text)).state; BoundsSoFar(lines + [l], st'.begun, st'.ended, c)
  {
    hide Trim, Join, MarkerAt, ParseHeader, SplitKeyValue;
    MarkersAreNoHeaders();
    MarkerSnoc(lines, l, BEGIN_MARKER);
    MarkerSnoc(lines, l, END_MARKER);
    var first, last := MarkerAt(lines, BEGIN_MARKER), MarkerAt(lines, END_MARKER);
    assert first < |lines| ==> (lines + [l])[..first + 1] == lines[..first + 1];
    assert last <= |lines| ==> (lines + [l])[..last] == lines[..last];
    assert lines[..|lines|] == lines && (lines + [l])[..|lines| + 1] == lines + [l];
  }

  lemma BoundsAtEnd(lines: seq<Line>, b: Bounds)
    requires BoundsSoFar(lines, true, true, b) && MarkerAt(lines, BEGIN_MARKER) < MarkerAt(lines, END_MARKER)
    ensures MarkerAt(lines, END_MARKER) < |lines| && BoundsOf(PartsOf(lines)) == b
  {
    hide Join, MarkerAt;
    JoinedLengths(lines, MarkerAt(lines, BEGIN_MARKER), MarkerAt(lines, END_MARKER));
  }

  lemma JoinedLengths(lines: seq<Line>, first: nat, last: nat)
    requires first < last < |lines|
    ensures lines[..first] + [lines[first]] == lines[..first + 1]
    ensures |Join(lines[..last])| == |Join(lines[..first + 1])| + |Join(lines[first + 1..last])|
  {
    hide Join;
    assert lines[..last] == lines[..first + 1] + lines[first + 1..last];
    JoinAppend(lines[..first + 1], lines[first + 1..last]);
  }

  /** DetectConfigBlock on the content of config.txt, with the bounds of the block. */
  method BlockLoop(content: string) returns (d: Detection, b: Bounds)
    ensures d == DetectBlock(content)
    ensures d.Valid? ==> b == BoundsOf(BlockParts(content)) && b.start <= b.end <= |content|
  {
    hide SafeText, BlockStep, FirstLine, Trim, Split, MarkerAt, Join, BlockParts, BoundsSoFar, ScanRest, Scan;
    b := Bounds(0, 0);
    if !SafeText(content) { return Corrupt, b; }
    var cursor, st := 0, BLOCK_START;
    ghost var done: seq<Line> := [];
    assert content[0..] == content && content[..0] == "";
    NothingRead();
    while true
      invariant cursor <= |content| && content[..cursor] == Join(done) && BoundsSoFar(done, st.begun, st.ended, b)
      invariant ScanRest(BlockStep, content[cursor..], st) == ScanRest(BlockStep, content, BLOCK_START)
      invariant Split(content) == Lines(done + Split(content[cursor..]).lines, Split(content[cursor..]).clean)
      decreases |content| - cursor
    {
      ghost var rest := content[cursor..];
      if cursor < |content| {
        ScanRestStep(BlockStep, rest, st);
        SplitStep(rest);
      }
      var next := NextLine(content, cursor);
      if next.EndOfText? {
        assert rest == "";
        break;
      }
      if next.CorruptLine? {
        ScanRestIsFile(content);
        return Corrupt, b;
      }
      ghost var l := FirstLine(rest).value;
      assert l == Line(next.text, content[cursor..next.next]) && rest[|l.raw|..] == content[next.next..];
      JoinSnoc(done, l);
      assert content[..next.next] == content[..cursor] + l.raw;
      var line := Trim(next.text);
      var turn := BlockStep(st, line);
      if turn.Stop? {
        ScanRestIsFile(content);
        BlockStepFault(st, line);
        return turn.result, b;
      }
      ghost var before := b;
      if line == BEGIN_MARKER { b := b.(start := next.next); }
      if line == END_MARKER { b := b.(end := cursor); }
      BoundsStep(done, l, st, before, b);
      assert done + ([l] + Split(content[next.next..]).lines) == done + [l] + Split(content[next.next..]).lines;
      done := done + [l];
      st := turn.state;
      cursor := next.next;
    }
    ScanRestIsFile(content);
    ScanNothing(BlockStep, st);
    SplitNothing();
    assert Split(content).lines == done;
    d := BlockVerdict(st);
    if d.Valid? {
      PartsOfRead(content, done);
      BoundsAtEnd(done, b);
    }
  }

  lemma BlockStepFault(st: BlockState, line: string)
    ensures BlockStep(st, line).Stop? ==> !BlockStep(st, line).result.Valid?
  {
    hide ParseHeader, SplitKeyValue;
  }

  lemma NothingRead()
    ensures Join([]) == "" && BoundsSoFar([], false, false, Bounds(0, 0))
  {
  }

  lemma SplitNothing()
    ensures Split("") == Lines([], true)
  {
  }

  lemma SplitStep(rest: string)
    requires rest != ""
    ensures FirstLine(rest).Some? ==>
              var l := FirstLine(rest).value;
              Split(rest) == Lines([l] + Split(rest[|l.raw|..]).lines, Split(rest[|l.raw|..]).clean)
  {
    hide FirstLine;
  }

  lemma JoinSnoc(lines: seq<Line>, l: Line)
    ensures Join(lines + [l]) == Join(lines) + l.raw
  {
    hide Join;
    JoinAppend(lines, [l]);
    SingleJoin(l);
  }

  lemma ScanRestIsFile(content: string)
    requires SafeText(content)
    ensures DetectBlock(content) ==
              match ScanRest(BlockStep, content, BLOCK_START)
              case Stop(d) => d
              case Next(st) => BlockVerdict(st)
  {
    hide SafeText, BlockStep, Scan, Split;
  }

  lemma PartsOfRead(content: string, lines: seq<Line>)
    requires DetectBlock(content).Valid? && Split(content).lines == lines
    ensures MarkerAt(lines, BEGIN_MARKER) < MarkerAt(lines, END_MARKER) < |lines| && BlockParts(content) == PartsOf(lines)
    ensures BoundsOf(BlockParts(content)).start <= BoundsOf(BlockParts(content)).end <= |content|
  {
    hide SafeText, Split, Scan, MarkerAt, FileOf, DetectBlock;
    ValidHasParts(content);
  }

  // ---------------------------------------------------------------- cmdline.txt

  lemma {:induction false} TokenFaultStays(a: Area, ts: seq<string>, k: nat)
    requires k <= |ts|
    ensures TokensFault(a, ts[..k]).Some? ==> TokensFault(a, ts) == TokensFault(a, ts[..k])
    decreases |ts| - k
  {
    hide TokenFault;
    if k < |ts| {
      TokenFaultStays(a, ts, k + 1);
      assert ts[..k + 1][..k] == ts[..k];
    } else {
      assert ts[..k] == ts;
    }
  }

  lemma TokensPast(line: string, offset: nat, end: nat)
    requires offset <= end <= |line| && forall i :: offset <= i < end ==> IsBlank(line[i])
    ensures Tokens(line[offset..]) == Tokens(line[end..])
    decreases end - offset
  {
    if offset < end {
      assert line[offset..][1..] == line[offset + 1..];
      TokensPast(line, offset + 1, end);
    }
  }

  /** A run without blanks that ends at a blank or at the end is the next token. */
  lemma TokenHere(line: string, start: nat, end: nat)
    requires start < end <= |line| && (end < |line| ==> IsBlank(line[end]))
    requires forall i :: start <= i < end ==> !IsBlank(line[i])
    ensures Tokens(line[start..]) == [line[start..end]] + Tokens(line[end..])
  {
    var s := line[start..];
    assert forall i :: 0 <= i < |s| ==> s[i] == line[start + i];
    assert TokenEnd(s) == end - start;
    assert s[..end - start] == line[start..end] && s[end - start..] == line[end..];
  }

  /** The next token's bounds: skip blanks, then run to the next blank. */
  method NextToken(line: string, offset: nat) returns (start: nat, end: nat)
    requires offset <= |line|
    ensures offset <= start <= end <= |line| && (start == end <==> start == |line|)
    ensures Tokens(line[offset..]) == if start == end then [] else [line[start..end]] + Tokens(line[end..])
  {
    hide Tokens;
    start := offset;
    while start < |line| && (line[start] == ' ' || line[start] == '\t')
      invariant offset <= start <= |line| && forall i :: offset <= i < start ==> IsBlank(line[i])
    {
      start := start + 1;
    }
    TokensPast(line, offset, start);
    end := start;
    while end < |line| && line[end] != ' ' && line[end] != '\t'
      invariant start <= end <= |line| && forall i :: start <= i < end ==> !IsBlank(line[i])
    {
      end := end + 1;
    }
    if start < end {
      TokenHere(line, start, end);
    } else {
      NoTokens();
      assert line[start..] == "";
    }
  }

  lemma NoTokens()
    ensures Tokens("") == []
  {
  }

  lemma NothingFaulty(a: Area)
    ensures TokensFault(a, []) == None
  {
  }

  /** The next token decides: its fault is the line's, or it joins the tokens in order. */
  lemma OneMoreToken(a: Area, all: seq<string>, tokens: seq<string>, t: string, rest: seq<string>)
    requires all == tokens + ([t] + rest) && TokensFault(a, tokens).None?
    ensures all == tokens + [t] + rest
    ensures TokenFault(a, tokens, t).Some? ==> TokensFault(a, all) == TokenFault(a, tokens, t)
    ensures TokenFault(a, tokens, t).None? ==> TokensFault(a, tokens + [t]).None?
  {
    hide TokenFault;
    assert all[..|tokens| + 1] == tokens + [t] && (tokens + [t])[..|tokens|] == tokens;
    TokenFaultStays(a, all, |tokens| + 1);
  }

  /** ParseCmdline's token loop. */
  method TokenLoop(a: Area, line: string) returns (fault: Option<Detection>, tokens: seq<string>)
    ensures fault == TokensFault(a, Tokens(line))
    ensures fault.None? ==> tokens == Tokens(line)
  {
    hide TokenFault, Tokens, TokensFault;
    tokens := [];
    NothingFaulty(a);
    var offset := 0;
    assert line[0..] == line;
    while offset < |line|
      invariant offset <= |line| && TokensFault(a, tokens).None?
      invariant Tokens(line) == tokens + Tokens(line[offset..])
      decreases |line| - offset
    {
      var start, end := NextToken(line, offset);
      if start == end {
        offset := |line|;
        NoTokens();
        assert line[offset..] == "";
        break;
      }
      var t := line[start..end];
      OneMoreToken(a, Tokens(line), tokens, t, Tokens(line[end..]));
      fault := TokenFault(a, tokens, t);
      if fault.Some? { return; }
      tokens := tokens + [t];
      offset := end;
    }
    assert line[offset..] == "";
    NoTokens();
    assert tokens + [] == tokens;
    fault := None;
  }

  /** ParseCmdline on the content of cmdline.txt: the verdict, the tokens and where line one ends. */
  method CmdlineLoop(a: Area, content: string) returns (d: Detection, tokens: seq<string>, firstEnd: nat)
    ensures d == DetectLine(a, content)
    ensures d.Valid? ==> tokens == LineTokens(content) && firstEnd == TextEnd(content)
  {
    hide SafeText, TokensFault, MarkerVersion, Own, Scan, Split, Tokens;
    tokens, firstEnd := [], 0;
    FaultsAreFaults(a, content);
    if |content| > MAX_CMDLINE || !SafeText(content) { return Corrupt, tokens, firstEnd; }
    while firstEnd < |content| && content[firstEnd] != '\r' && content[firstEnd] != '\n'
      invariant firstEnd <= |content| && forall i :: 0 <= i < firstEnd ==> !IsBreak(content[i])
    {
      firstEnd := firstEnd + 1;
    }
    assert firstEnd == TextEnd(content);
    if firstEnd > MAX_LINE { return LimitExceeded, tokens, firstEnd; }
    var suffix := firstEnd;
    if suffix < |content| && content[suffix] == '\r' {
      suffix := suffix + 1;
      if suffix >= |content| || content[suffix] != '\n' { return Corrupt, tokens, firstEnd; }
      suffix := suffix + 1;
    } else if suffix < |content| && content[suffix] == '\n' {
      suffix := suffix + 1;
    }
    var comments := ScanLines(CommentStep, content[suffix..], ());
    if comments.Stop? { return comments.result, tokens, firstEnd; }
    var fault;
    fault, tokens := TokenLoop(a, content[..firstEnd]);
    if fault.Some? { return fault.value, tokens, firstEnd; }
    return Valid(MarkerVersion(a, Own(a, tokens))), tokens, firstEnd;
  }

  // ---------------------------------------------------------------- the update state

  lemma LastAtSnoc(files: seq<File>, k: nat, path: string)
    requires k < |files|
    ensures LastAt(files[..k + 1], path) == if files[k].path == path then Some(files[k].content) else LastAt(files[..k], path)
  {
    assert files[..k + 1][..k] == files[..k];
  }

  lemma {:induction false} LastAtPlace(files: seq<File>, path: string)
    ensures LastAt(files, path).Some? <==> exists i :: 0 <= i < |files| && files[i].path == path
  {
    if files != [] {
      LastAtPlace(files[..|files| - 1], path);
    }
  }

  lemma StatePathsDiffer()
    ensures BUILD_PATH != JOURNAL_A && BUILD_PATH != JOURNAL_B && JOURNAL_A != JOURNAL_B
  {
    assert |BUILD_PATH| == 14 && |JOURNAL_A| == 33 && |JOURNAL_B| == 33;
    assert JOURNAL_A[32] == 'a' && JOURNAL_B[32] == 'b';
  }

  /** DetectUpdateState: one loop finds the files, then the parsers are asked. */
  method UpdateStateLoop(reader: StateReader, files: seq<File>) returns (d: Detection)
    ensures d == DetectUpdateState(reader, files)
  {
    hide StateVerdict, LastAt;
    if |files| == 0 { return Missing; }
    var build: Option<string>, a: Option<string>, b: Option<string> := None, None, None;
    StatePathsDiffer();
    assert files[..0] == [];
    NothingAt();
    for i := 0 to |files|
      invariant build == LastAt(files[..i], BUILD_PATH) && a == LastAt(files[..i], JOURNAL_A) && b == LastAt(files[..i], JOURNAL_B)
      invariant !Twice(files[..i], BUILD_PATH)
    {
      LastAtPlace(files[..i], BUILD_PATH);
      LastAtSnoc(files, i, BUILD_PATH);
      LastAtSnoc(files, i, JOURNAL_A);
      LastAtSnoc(files, i, JOURNAL_B);
      if files[i].path == BUILD_PATH {
        if build.Some? {
          var k :| 0 <= k < i && files[..i][k].path == BUILD_PATH;
          assert files[k].path == BUILD_PATH;
          return Corrupt;
        }
        build := Some(files[i].content);
      } else if files[i].path == JOURNAL_A {
        a := Some(files[i].content);
      } else if files[i].path == JOURNAL_B {
        b := Some(files[i].content);
      }
      TwiceSnoc(files, i, BUILD_PATH);
    }
    assert files[..|files|] == files;
    return StateVerdict(reader, build, a, b);
  }

  lemma NothingAt()
    ensures forall path :: LastAt([], path) == None
  {
  }

  lemma TwiceSnoc(files: seq<File>, k: nat, path: string)
    requires k < |files| && !Twice(files[..k], path)
    requires files[k].path == path ==> forall i :: 0 <= i < k ==> files[i].path != path
    ensures !Twice(files[..k + 1], path)
  {
    assert forall i :: 0 <= i < k ==> files[..k][i] == files[..k + 1][i];
  }

  // ---------------------------------------------------------------- one area

  /** DetectArea, by the loops. */
  method DetectLoop(reader: StateReader, s: Snapshot) returns (d: Detection)
    ensures d == DetectArea(reader, s)
  {
    hide DetectBlock, DetectLine, DetectMachines, DetectSettings, DetectUpdateState;
    match s.area {
      case Machines => d := MachinesLoop(s.files);
      case Settings => d := SettingsLoop(s.files);
      case UpdateState => d := UpdateStateLoop(reader, s.files);
      case UnknownArea => d := Corrupt;
      case ConfigManagedBlock =>
        if s.files == [] { return Missing; }
        if |s.files| != 1 || s.files[0].path != "config.txt" { return Corrupt; }
        var bounds;
        d, bounds := BlockLoop(s.files[0].content);
      case _ =>
        if s.files == [] { return Missing; }
        if |s.files| != 1 || s.files[0].path != "cmdline.txt" { return Corrupt; }
        var tokens, firstEnd;
        d, tokens, firstEnd := CmdlineLoop(s.area, s.files[0].content);
    }
  }
}
