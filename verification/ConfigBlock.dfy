/**
 The managed block of config.txt (src/update/config_migration.cpp): where it is, and
 what inserting a header into it or replacing it does to the file.
 */
module ConfigBlock {
  import opened ConfigText
  import opened ConfigDetect
  import opened ConfigHeaders

  // ---------------------------------------------------------------- where the block is

  /** The first line that is this marker, or the number of lines. */
  function MarkerAt(lines: seq<Line>, marker: string): (k: nat)
    ensures k <= |lines| && (k < |lines| ==> Trim(lines[k].text) == marker)
    ensures forall i :: 0 <= i < k ==> Trim(lines[i].text) != marker
  {
    if lines == [] || Trim(lines[0].text) == marker then 0 else 1 + MarkerAt(lines[1..], marker)
  }

  /** The lines of a file with a block: before, the begin marker, the block, the end marker, after. */
  datatype Parts = Parts(before: seq<Line>, begin: Line, inner: seq<Line>, end: Line, after: seq<Line>)

  function Whole(p: Parts): seq<Line> {
    p.before + [p.begin] + p.inner + [p.end] + p.after
  }

  function PartsOf(lines: seq<Line>): Parts
    requires MarkerAt(lines, BEGIN_MARKER) < MarkerAt(lines, END_MARKER) < |lines|
  {
    var b, e := MarkerAt(lines, BEGIN_MARKER), MarkerAt(lines, END_MARKER);
    Parts(lines[..b], lines[b], lines[b + 1..e], lines[e], lines[e + 1..])
  }

  predicate Lacks(lines: seq<Line>, marker: string) {
    forall i :: 0 <= i < |lines| ==> Trim(lines[i].text) != marker
  }

  /** Lines outside the block: no marker and no header of the block. */
  predicate Outside(lines: seq<Line>) {
    Lacks(lines, BEGIN_MARKER) && Lacks(lines, END_MARKER) && !HasHeader(ConfigManagedBlock, lines)
  }

  /** Parts as a file with a valid block has them. */
  predicate InPlace(p: Parts) {
    && Outside(p.before) && Outside(p.after)
    && Trim(p.begin.text) == BEGIN_MARKER && Trim(p.end.text) == END_MARKER
    && Lacks(p.inner, BEGIN_MARKER) && Lacks(p.inner, END_MARKER)
  }

  // ---------------------------------------------------------------- the scan, part by part

  predicate IsMarkerLine(line: string) { line == BEGIN_MARKER || line == END_MARKER }

  lemma MarkersAreNoHeaders()
    ensures BEGIN_MARKER != END_MARKER
    ensures ParseHeader(BEGIN_MARKER, ConfigManagedBlock).NotHeader? && ParseHeader(END_MARKER, ConfigManagedBlock).NotHeader?
  {
    assert BEGIN_MARKER[2] == 'B' && END_MARKER[2] == 'E';
    assert SCHEMA_WORD[3] == 'M' && BEGIN_MARKER[3] == 'E' && SCHEMA_WORD[2] == 'B';
    assert BEGIN_MARKER[..|SCHEMA_WORD|][3] == 'E' && END_MARKER[..|SCHEMA_WORD|][2] == 'E';
  }

  lemma OutsideList(lines: seq<Line>)
    requires lines != []
    ensures Outside(lines) <==>
              !IsMarkerLine(Trim(lines[0].text)) && ParseHeader(Trim(lines[0].text), ConfigManagedBlock).NotHeader?
              && Outside(lines[1..])
  {
    hide ParseHeader, HasHeader;
    HeaderInList(ConfigManagedBlock, lines);
    assert lines == [lines[0]] + lines[1..];
    assert forall i :: 0 < i < |lines| ==> lines[i] == lines[1..][i - 1];
  }

  /** After the block nothing is read any more, as long as nothing reopens it. */
  lemma {:induction false} ScanAfter(lines: seq<Line>, st: BlockState)
    requires st.begun && st.ended
    ensures Scan(BlockStep, lines, st) == if Outside(lines) then Next(st) else Stop(Corrupt)
  {
    hide ParseHeader, BlockLine, Outside;
    if lines == [] {
      OutsideNothing();
    } else {
      OutsideList(lines);
      ScanAfter(lines[1..], st);
    }
  }

  lemma OutsideNothing()
    ensures Outside([])
  {
  }

  /** Before the block nothing is read either. */
  lemma {:induction false} ScanBefore(lines: seq<Line>)
    requires Lacks(lines, BEGIN_MARKER)
    ensures Scan(BlockStep, lines, BLOCK_START) == if Outside(lines) then Next(BLOCK_START) else Stop(Corrupt)
  {
    hide ParseHeader, BlockLine, Outside;
    if lines == [] {
      OutsideNothing();
    } else {
      OutsideList(lines);
      ScanBefore(lines[1..]);
    }
  }

  /** An open block stays open without an end marker, and a second begin is corrupt. */
  lemma {:induction false} ScanInside(lines: seq<Line>, st: BlockState)
    requires st.begun && !st.ended && Lacks(lines, END_MARKER) && Scan(BlockStep, lines, st).Next?
    ensures var end := Scan(BlockStep, lines, st).state;
            end.begun && !end.ended && Lacks(lines, BEGIN_MARKER)
  {
    hide ParseHeader, SplitKeyValue, IsIdentifier;
    if lines != [] {
      ScanInside(lines[1..], BlockStep(st, Trim(lines[0].text)).state);
      assert lines == [lines[0]] + lines[1..];
    }
  }

  lemma ScanMarkers(p: Parts, st: BlockState)
    requires InPlace(p) && st.begun && !st.ended
    ensures Scan(BlockStep, [p.begin], BLOCK_START) == Next(BLOCK_OPEN)
    ensures Scan(BlockStep, [p.end], st) == Next(st.(ended := true))
  {
    hide ParseHeader, BlockLine;
    MarkersAreNoHeaders();
    assert [p.begin][1..] == [] && [p.end][1..] == [];
  }

  /** The scan of a file in parts is the scan of its block. */
  lemma ScanParts(p: Parts)
    requires InPlace(p)
    ensures Scan(BlockStep, Whole(p), BLOCK_START) ==
              match Scan(BlockStep, p.inner, BLOCK_OPEN)
              case Stop(d) => Stop(d)
              case Next(st) => Next(st.(ended := true))
  {
    hide BlockStep, Outside, Lacks;
    OutsideLacks(p.before);
    var upTo := p.before + [p.begin];
    ScanBefore(p.before);
    ScanAppend(BlockStep, p.before, [p.begin], BLOCK_START);
    ScanMarkers(p, BLOCK_OPEN);
    ScanAppend(BlockStep, upTo, p.inner, BLOCK_START);
    var inner := Scan(BlockStep, p.inner, BLOCK_OPEN);
    ScanAppend(BlockStep, upTo + p.inner, [p.end], BLOCK_START);
    ScanAppend(BlockStep, upTo + p.inner + [p.end], p.after, BLOCK_START);
    if inner.Next? {
      ScanInside(p.inner, BLOCK_OPEN);
      ScanMarkers(p, inner.state);
      ScanAfter(p.after, inner.state.(ended := true));
    }
  }

  /** A scan that saw the begin marker is, from there on, the scan of an open block. */
  lemma ScanFindsBegin(lines: seq<Line>, b: nat)
    requires b <= |lines| && Lacks(lines[..b], BEGIN_MARKER) && (b < |lines| ==> Trim(lines[b].text) == BEGIN_MARKER)
    requires Scan(BlockStep, lines, BLOCK_START).Next? && Scan(BlockStep, lines, BLOCK_START).state.begun
    ensures b < |lines| && Outside(lines[..b])
    ensures Scan(BlockStep, lines, BLOCK_START) == Scan(BlockStep, lines[b + 1..], BLOCK_OPEN)
  {
    hide BlockStep, Outside, Lacks, Trim, Scan;
    assert b == |lines| ==> lines[..b] == lines;
    ScanBefore(lines[..b]);
    assert lines == lines[..b] + lines[b..];
    ScanAppend(BlockStep, lines[..b], lines[b..], BLOCK_START);
    assert lines[b..] == [lines[b]] + lines[b + 1..];
    BeginOpens(lines[b], lines[b + 1..]);
  }

  /** From an open block, a scan that saw the end marker went through the block and out of it. */
  lemma ScanFindsEnd(rest: seq<Line>, e: nat)
    requires e <= |rest| && Lacks(rest[..e], END_MARKER) && (e < |rest| ==> Trim(rest[e].text) == END_MARKER)
    requires Scan(BlockStep, rest, BLOCK_OPEN).Next? && Scan(BlockStep, rest, BLOCK_OPEN).state.ended
    ensures e < |rest| && Lacks(rest[..e], BEGIN_MARKER) && Outside(rest[e + 1..])
  {
    hide BlockStep, Outside, Lacks, Trim;
    assert rest == rest[..e] + rest[e..];
    ScanAppend(BlockStep, rest[..e], rest[e..], BLOCK_OPEN);
    ScanInside(rest[..e], BLOCK_OPEN);
    var open := Scan(BlockStep, rest[..e], BLOCK_OPEN).state;
    if e < |rest| {
      assert rest[e..] == [rest[e]] + rest[e + 1..];
      EndCloses(rest[e], rest[e + 1..], open);
      ScanAfter(rest[e + 1..], open.(ended := true));
    }
  }

  /** A scan that saw both markers went through the parts. */
  lemma ScanFindsParts(lines: seq<Line>)
    requires Scan(BlockStep, lines, BLOCK_START).Next?
    requires Scan(BlockStep, lines, BLOCK_START).state.begun && Scan(BlockStep, lines, BLOCK_START).state.ended
    ensures MarkerAt(lines, BEGIN_MARKER) < MarkerAt(lines, END_MARKER) < |lines|
    ensures InPlace(PartsOf(lines)) && Whole(PartsOf(lines)) == lines
  {
    hide BlockStep, Outside, MarkerAt, HasHeader, Trim, Lacks, Scan, Whole;
    var b := MarkerAt(lines, BEGIN_MARKER);
    MarkerLacks(lines, BEGIN_MARKER);
    ScanFindsBegin(lines, b);
    OutsideLacks(lines[..b]);
    var rest := lines[b + 1..];
    var e := MarkerAt(rest, END_MARKER);
    MarkerLacks(rest, END_MARKER);
    ScanFindsEnd(rest, e);
    MarkerFurther(lines, b, e);
    assert lines[b + 1..b + 1 + e] == rest[..e];
    assert lines[b + 1 + e + 1..] == rest[e + 1..];
    WholeCut(lines, b, b + 1 + e);
  }

  lemma MarkerLacks(lines: seq<Line>, marker: string)
    ensures Lacks(lines[..MarkerAt(lines, marker)], marker)
  {
    hide MarkerAt, Trim;
  }

  lemma WholeCut(lines: seq<Line>, b: nat, e: nat)
    requires b < e < |lines|
    ensures Whole(Parts(lines[..b], lines[b], lines[b + 1..e], lines[e], lines[e + 1..])) == lines
  {
    Cut(lines, b, e);
  }

  lemma Cut<T>(s: seq<T>, b: nat, e: nat)
    requires b < e < |s|
    ensures s[..b] + [s[b]] + s[b + 1..e] + [s[e]] + s[e + 1..] == s
  {
  }

  /** The end marker of the file is the first one after the begin marker. */
  lemma MarkerFurther(lines: seq<Line>, b: nat, e: nat)
    requires b < |lines| && Trim(lines[b].text) == BEGIN_MARKER && Lacks(lines[..b], END_MARKER)
    requires e == MarkerAt(lines[b + 1..], END_MARKER) < |lines[b + 1..]|
    ensures MarkerAt(lines, END_MARKER) == b + 1 + e
  {
    hide MarkerAt, Trim;
    MarkersAreNoHeaders();
    var rest := lines[b + 1..];
    assert rest[e] == lines[b + 1 + e];
    forall i | 0 <= i < b + 1 + e
      ensures Trim(lines[i].text) != END_MARKER
    {
      if i < b {
        assert lines[..b][i] == lines[i];
      } else if i > b {
        assert rest[i - b - 1] == lines[i];
      }
    }
    assert MarkerAt(lines, END_MARKER) <= b + 1 + e;
  }

  lemma OutsideLacks(lines: seq<Line>)
    requires Outside(lines)
    ensures Lacks(lines, BEGIN_MARKER) && Lacks(lines, END_MARKER)
  {
  }

  lemma BeginOpens(l: Line, rest: seq<Line>)
    requires Trim(l.text) == BEGIN_MARKER
    ensures Scan(BlockStep, [l] + rest, BLOCK_START) == Scan(BlockStep, rest, BLOCK_OPEN)
  {
    hide ParseHeader, BlockLine;
    assert ([l] + rest)[1..] == rest;
  }

  lemma EndCloses(l: Line, rest: seq<Line>, st: BlockState)
    requires Trim(l.text) == END_MARKER && st.begun && !st.ended
    ensures Scan(BlockStep, [l] + rest, st) == Scan(BlockStep, rest, st.(ended := true))
  {
    hide ParseHeader, BlockLine;
    MarkersAreNoHeaders();
    assert ([l] + rest)[1..] == rest;
  }

  lemma {:induction false} BlockStops(lines: seq<Line>, st: BlockState)
    ensures Scan(BlockStep, lines, st).Stop? ==> !Scan(BlockStep, lines, st).result.Valid?
  {
    hide ParseHeader, SplitKeyValue;
    if lines != [] {
      var r := BlockStep(st, Trim(lines[0].text));
      if r.Next? {
        BlockStops(lines[1..], r.state);
      }
    }
  }

  // ---------------------------------------------------------------- a valid file, in parts

  /** What the block of a file holds: its version, and its keys in order. */
  function InnerScan(p: Parts): Step<BlockState> {
    Scan(BlockStep, p.inner, BLOCK_OPEN)
  }

  /** A file is valid exactly when it is the text of parts in place whose block scans and has a key. */
  predicate FileOf(content: string, p: Parts) {
    && SafeText(content) && content == Join(Whole(p)) && WellFormed(Whole(p)) && InPlace(p)
    && InnerScan(p).Next? && InnerScan(p).state.keys != []
  }

  lemma ValidHasParts(content: string)
    requires DetectBlock(content).Valid?
    ensures var lines := Split(content).lines;
            && MarkerAt(lines, BEGIN_MARKER) < MarkerAt(lines, END_MARKER) < |lines|
            && FileOf(content, PartsOf(lines))
  {
    hide SafeText, Split, BlockStep, WellFormed, InPlace, MarkerAt;
    var lines := Split(content).lines;
    BlockStops(lines, BLOCK_START);
    ScanFindsParts(lines);
    SplitJoins(content);
    ScanParts(PartsOf(lines));
  }

  /** The parts of a valid file, and the bounds of its block within the file. */
  function BlockParts(content: string): (p: Parts)
    requires DetectBlock(content).Valid?
    ensures FileOf(content, p) && BoundsOf(p).start <= BoundsOf(p).end <= |content|
  {
    ValidHasParts(content);
    CutAtBounds(content, PartsOf(Split(content).lines));
    PartsOf(Split(content).lines)
  }

  lemma PartsAreValid(content: string, p: Parts)
    requires FileOf(content, p)
    ensures DetectBlock(content) == Valid(if InnerScan(p).state.header.Some? then InnerScan(p).state.header.value else 1)
    ensures BlockParts(content) == p
  {
    hide SafeText, Split, BlockStep, WellFormed, InPlace, Whole, MarkerAt;
    JoinSplits(Whole(p));
    ScanParts(p);
    InnerIsOpen(p);
    PartsOfWhole(p);
  }

  lemma InnerIsOpen(p: Parts)
    requires InPlace(p) && InnerScan(p).Next?
    ensures InnerScan(p).state.begun && !InnerScan(p).state.ended
  {
    hide BlockStep;
    ScanInside(p.inner, BLOCK_OPEN);
  }

  /** The parts are where the markers are. */
  lemma PartsOfWhole(p: Parts)
    requires InPlace(p)
    ensures MarkerAt(Whole(p), BEGIN_MARKER) == |p.before| && MarkerAt(Whole(p), END_MARKER) == |p.before| + 1 + |p.inner|
    ensures |p.before| + 1 + |p.inner| < |Whole(p)| && PartsOf(Whole(p)) == p
  {
    hide HasHeader, MarkerAt, Trim;
    var lines := Whole(p);
    var b, e := |p.before|, |p.before| + 1 + |p.inner|;
    MarkersAreNoHeaders();
    assert lines[b] == p.begin && lines[e] == p.end;
    assert lines[..b] == p.before && lines[b + 1..e] == p.inner && lines[e + 1..] == p.after;
    forall i | 0 <= i < e
      ensures Trim(lines[i].text) != END_MARKER && (i < b ==> Trim(lines[i].text) != BEGIN_MARKER)
    {
      if i < b {
        assert lines[i] == p.before[i];
      } else if i > b {
        assert lines[i] == p.inner[i - b - 1];
      }
    }
    assert MarkerAt(lines, BEGIN_MARKER) == b;
    assert MarkerAt(lines, END_MARKER) == e;
  }

  // ---------------------------------------------------------------- the bytes of the block

  /** ConfigBlockBounds: the bytes from after the begin line up to the end line. */
  datatype Bounds = Bounds(start: nat, end: nat)

  function BoundsOf(p: Parts): Bounds {
    var start := |Join(p.before + [p.begin])|;
    Bounds(start, start + |Join(p.inner)|)
  }

  lemma {:induction false} JoinParts(p: Parts)
    ensures Join(Whole(p)) == Join(p.before + [p.begin]) + Join(p.inner) + Join([p.end] + p.after)
  {
    hide Join;
    JoinAppend(p.before + [p.begin], p.inner);
    JoinAppend(p.before + [p.begin] + p.inner, [p.end] + p.after);
    assert Whole(p) == p.before + [p.begin] + p.inner + ([p.end] + p.after);
  }

  /** Cutting a file at the bounds cuts its lines at the markers. */
  lemma CutAtBounds(content: string, p: Parts)
    requires content == Join(Whole(p))
    ensures var b := BoundsOf(p);
            && b.start <= b.end <= |content|
            && content[..b.start] == Join(p.before + [p.begin])
            && content[b.start..b.end] == Join(p.inner)
            && content[b.end..] == Join([p.end] + p.after)
            && content[b.start..] == Join(p.inner) + Join([p.end] + p.after)
  {
    hide Join, Whole;
    JoinParts(p);
  }

  // ---------------------------------------------------------------- a header in the block

  predicate BlockBare(st: BlockState) { st.header.None? }

  function BlockMark(v: nat): BlockState -> BlockState {
    (st: BlockState) => st.(header := Some(v))
  }

  lemma BlockHeaded(v: nat)
    ensures Headed(ConfigManagedBlock, BlockStep, BlockBare, BlockMark(v))
  {
    hide BlockStep, ParseHeader;
    forall s, line | BlockStep(s, line).Next?
      ensures BlockBare(s) ==>
                BlockStep(BlockMark(v)(s), line)
                == if ParseHeader(line, ConfigManagedBlock).NotHeader? then Next(BlockMark(v)(BlockStep(s, line).state)) else Stop(Corrupt)
      ensures BlockBare(s) ==> (BlockBare(BlockStep(s, line).state) <==> ParseHeader(line, ConfigManagedBlock).NotHeader?)
      ensures !BlockBare(s) ==> !BlockBare(BlockStep(s, line).state)
    {
      BlockStepMarked(s, line, v);
    }
  }

  lemma BlockLineMarked(s: BlockState, line: string, h: Option<nat>)
    ensures BlockLine(s, line).Next? ==>
              BlockLine(s.(header := h), line) == Next(BlockLine(s, line).state.(header := h))
              && BlockLine(s, line).state.header == s.header
  {
    hide SplitKeyValue;
  }

  lemma BlockStepMarked(s: BlockState, line: string, v: nat)
    requires BlockStep(s, line).Next?
    ensures s.header.None? ==>
              BlockStep(s.(header := Some(v)), line)
              == if ParseHeader(line, ConfigManagedBlock).NotHeader? then Next(BlockStep(s, line).state.(header := Some(v))) else Stop(Corrupt)
    ensures s.header.None? ==> (BlockStep(s, line).state.header.None? <==> ParseHeader(line, ConfigManagedBlock).NotHeader?)
    ensures s.header.Some? ==> BlockStep(s, line).state.header.Some?
  {
    hide ParseHeader, BlockLine;
    MarkersAreNoHeaders();
    BlockLineMarked(s, line, Some(v));
  }

  function WithHeader(p: Parts, v: nat): Parts {
    p.(inner := [HeaderLine(ConfigManagedBlock, v)] + p.inner)
  }

  /** The block behind a new header, unless it has one already. */
  lemma InnerBehindHeader(p: Parts, v: nat)
    requires 0 < v <= UINT32_MAX && InnerScan(p).Next?
    ensures InnerScan(WithHeader(p, v))
         == if HasHeader(ConfigManagedBlock, p.inner) then Stop(Corrupt) else Next(InnerScan(p).state.(header := Some(v)))
  {
    hide ParseHeader, HasHeader, BlockLine;
    var inner := WithHeader(p, v).inner;
    assert inner[1..] == p.inner;
    HeaderIsPlain(ConfigManagedBlock, v);
    HeaderRoundTrip(ConfigManagedBlock, v);
    MarkersAreNoHeaders();
    assert BlockStep(BLOCK_OPEN, HeaderText(ConfigManagedBlock, v)) == Next(BlockMark(v)(BLOCK_OPEN));
    BlockHeaded(v);
    hide BlockStep, Headed;
    ScanMarked(ConfigManagedBlock, BlockStep, BlockBare, BlockMark(v), p.inner, BLOCK_OPEN);
  }

  lemma WithHeaderInPlace(p: Parts, v: nat)
    requires 0 < v <= UINT32_MAX && InPlace(p)
    ensures InPlace(WithHeader(p, v))
  {
    hide ParseHeader, Outside, HeaderLine, Trim;
    HeaderIsPlain(ConfigManagedBlock, v);
    HeaderRoundTrip(ConfigManagedBlock, v);
    MarkersAreNoHeaders();
    HeaderLineText(v);
  }

  lemma HeaderLineText(v: nat)
    ensures HeaderLine(ConfigManagedBlock, v).text == HeaderText(ConfigManagedBlock, v)
  {
  }

  /** AddConfigBlockHeader's output. */
  function HeaderAdded(content: string, b: Bounds, v: nat): string
    requires b.start <= |content|
  {
    content[..b.start] + HeaderLine(ConfigManagedBlock, v).raw + content[b.start..]
  }

  lemma {:induction false} HeaderAddedParts(content: string, p: Parts, v: nat)
    requires 0 < v <= UINT32_MAX && content == Join(Whole(p)) && WellFormed(Whole(p))
    ensures BoundsOf(p).start <= |content|
    ensures HeaderAdded(content, BoundsOf(p), v) == Join(Whole(WithHeader(p, v))) && WellFormed(Whole(WithHeader(p, v)))
  {
    hide Join, HeaderLine, WellFormed, Whole;
    var q, h := WithHeader(p, v), HeaderLine(ConfigManagedBlock, v);
    CutAtBounds(content, p);
    JoinParts(q);
    JoinAppend([h], p.inner);
    SingleJoin(h);
    HeaderIsPlain(ConfigManagedBlock, v);
    InnerGrowsWellFormed(p, h);
  }

  lemma SingleJoin(l: Line)
    ensures Join([l]) == l.raw
  {
    assert [l][1..] == [];
  }

  lemma InnerGrowsWellFormed(p: Parts, l: Line)
    requires WellFormed(Whole(p)) && WholeLine(l) && Terminated(l)
    ensures WellFormed(Whole(p.(inner := [l] + p.inner)))
  {
    hide WholeLine, Terminated;
    var k := |p.before| + 1;
    var s, t := Whole(p), Whole(p.(inner := [l] + p.inner));
    assert t == s[..k] + [l] + s[k..];
  }

  lemma SafeInsert(content: string, k: nat, mid: string)
    requires SafeText(content) && k <= |content| && |content| + |mid| <= MAX_FILE
    requires forall i :: 0 <= i < |mid| ==> SafeChar(mid[i])
    ensures SafeText(content[..k] + mid + content[k..])
  {
    hide SafeChar;
  }

  /**
   Adding a header to the block: every other byte stays where it is around it, and the
   file is valid with the new version and the same keys exactly when it fits and its
   block has no header yet.
   */
  lemma HeaderAddedRedetects(content: string, v: nat)
    requires 0 < v <= UINT32_MAX && DetectBlock(content).Valid?
    ensures var p := BlockParts(content);
            var out := HeaderAdded(content, BoundsOf(p), v);
            && DetectBlock(out) == (if |out| <= MAX_FILE && !HasHeader(ConfigManagedBlock, p.inner) then Valid(v) else Corrupt)
            && (DetectBlock(out).Valid? ==>
                  && BlockParts(out) == WithHeader(p, v)
                  && InnerScan(p).Next? && InnerScan(WithHeader(p, v)) == Next(InnerScan(p).state.(header := Some(v))))
  {
    hide Split, SafeText, InPlace, WellFormed, Whole, Join, HasHeader, BlockStep, HeaderLine, MarkerAt, Scan, DetectBlock, BlockParts;
    var p := BlockParts(content);
    var q := WithHeader(p, v);
    HeaderAddedParts(content, p, v);
    var out := HeaderAdded(content, BoundsOf(p), v);
    WithHeaderInPlace(p, v);
    InnerBehindHeader(p, v);
    HeaderIsPlain(ConfigManagedBlock, v);
    if |out| <= MAX_FILE {
      SafeInsert(content, BoundsOf(p).start, HeaderLine(ConfigManagedBlock, v).raw);
      if HasHeader(ConfigManagedBlock, p.inner) {
        SecondHeaderCorrupts(out, q);
      } else {
        PartsAreValid(out, q);
      }
    } else {
      TooLongIsCorrupt(out);
    }
  }

  lemma TooLongIsCorrupt(content: string)
    requires |content| > MAX_FILE
    ensures DetectBlock(content) == Corrupt
  {
    TooLong(content);
  }

  lemma SecondHeaderCorrupts(out: string, q: Parts)
    requires SafeText(out) && out == Join(Whole(q)) && WellFormed(Whole(q)) && InPlace(q) && InnerScan(q) == Stop(Corrupt)
    ensures DetectBlock(out) == Corrupt
  {
    hide SafeText, Split, BlockStep, WellFormed, InPlace, Whole;
    JoinSplits(Whole(q));
    ScanParts(q);
  }

  // ---------------------------------------------------------------- replacing the block

  function WithInner(p: Parts, d: Parts): Parts {
    p.(inner := d.inner)
  }

  /** ReplaceConfigBlock's output. */
  function Replaced(content: string, b: Bounds, defaults: string, d: Bounds): string
    requires b.start <= b.end <= |content| && d.start <= d.end <= |defaults|
  {
    content[..b.start] + defaults[d.start..d.end] + content[b.end..]
  }

  lemma ReplacedParts(content: string, p: Parts, defaults: string, d: Parts)
    requires content == Join(Whole(p)) && defaults == Join(Whole(d))
    ensures var b, e := BoundsOf(p), BoundsOf(d);
            && b.start <= b.end <= |content| && e.start <= e.end <= |defaults|
            && Replaced(content, b, defaults, e) == Join(Whole(WithInner(p, d)))
  {
    hide Join, Whole;
    CutAtBounds(content, p);
    CutAtBounds(defaults, d);
    JoinParts(WithInner(p, d));
  }

  lemma InnerSwapWellFormed(p: Parts, d: Parts)
    requires WellFormed(Whole(p)) && WellFormed(Whole(d))
    ensures WellFormed(Whole(WithInner(p, d)))
  {
    hide WholeLine, Terminated;
    var s, t, r := Whole(p), Whole(d), Whole(WithInner(p, d));
    var i, j, m, n := |p.before| + 1, |d.before| + 1, |p.inner|, |d.inner|;
    assert r == s[..i] + t[j..j + n] + s[i + m..];
  }

  lemma SafeReplace(content: string, k: nat, m: nat, defaults: string, i: nat, j: nat)
    requires SafeText(content) && SafeText(defaults) && k <= m <= |content| && i <= j <= |defaults|
    requires |content[..k] + defaults[i..j] + content[m..]| <= MAX_FILE
    ensures SafeText(content[..k] + defaults[i..j] + content[m..])
  {
    hide SafeChar;
  }

  /**
   Replacing the block by the defaults' block: the bytes outside it are the source's,
   the bytes inside it the defaults', and a result that fits is valid with the
   defaults' version and keys.
   */
  lemma ReplacedRedetects(content: string, defaults: string)
    requires DetectBlock(content).Valid? && DetectBlock(defaults).Valid?
    ensures var p, d := BlockParts(content), BlockParts(defaults);
            var out := Replaced(content, BoundsOf(p), defaults, BoundsOf(d));
            && DetectBlock(out) == (if |out| <= MAX_FILE then DetectBlock(defaults) else Corrupt)
            && (|out| <= MAX_FILE ==> BlockParts(out) == WithInner(p, d) && InnerScan(BlockParts(out)) == InnerScan(d))
  {
    hide Split, SafeText, InPlace, WellFormed, Whole, Join, HasHeader, BlockStep, MarkerAt, Scan, DetectBlock, BlockParts;
    var p, d := BlockParts(content), BlockParts(defaults);
    ReplacedParts(content, p, defaults, d);
    InnerSwapWellFormed(p, d);
    InnerSwapInPlace(p, d);
    var b, e := BoundsOf(p), BoundsOf(d);
    var out := Replaced(content, b, defaults, e);
    PartsAreValid(defaults, d);
    if |out| <= MAX_FILE {
      SafeReplace(content, b.start, b.end, defaults, e.start, e.end);
      PartsAreValid(out, WithInner(p, d));
    } else {
      TooLongIsCorrupt(out);
    }
  }

  lemma InnerSwapInPlace(p: Parts, d: Parts)
    requires InPlace(p) && InPlace(d)
    ensures InPlace(WithInner(p, d))
  {
  }

  lemma {:induction false} HeadersAppend(area: Area, a: seq<Line>, b: seq<Line>)
    ensures HasHeader(area, a + b) <==> HasHeader(area, a) || HasHeader(area, b)
  {
    hide HasHeader;
    if a == [] {
      assert a + b == b;
      NoLinesNoHeader(area);
    } else {
      assert (a + b)[0] == a[0] && (a + b)[1..] == a[1..] + b;
      HeaderInList(area, a + b);
      HeaderInList(area, a);
      HeadersAppend(area, a[1..], b);
    }
  }

  lemma NoLinesNoHeader(area: Area)
    ensures !HasHeader(area, [])
  {
  }

  lemma MarkerLineNoHeader(l: Line)
    requires IsMarkerLine(Trim(l.text))
    ensures !HasHeader(ConfigManagedBlock, [l])
  {
    hide ParseHeader;
    MarkersAreNoHeaders();
  }

  /** A valid file has its header, if any, in the block. */
  lemma HeaderIsInside(p: Parts)
    requires InPlace(p)
    ensures HasHeader(ConfigManagedBlock, Whole(p)) <==> HasHeader(ConfigManagedBlock, p.inner)
  {
    hide HasHeader, Lacks, Trim;
    MarkerLineNoHeader(p.begin);
    MarkerLineNoHeader(p.end);
    HeadersAppend(ConfigManagedBlock, p.before, [p.begin]);
    HeadersAppend(ConfigManagedBlock, p.before + [p.begin], p.inner);
    HeadersAppend(ConfigManagedBlock, p.before + [p.begin] + p.inner, [p.end]);
    HeadersAppend(ConfigManagedBlock, p.before + [p.begin] + p.inner + [p.end], p.after);
  }

  lemma HeaderOfFile(content: string)
    requires DetectBlock(content).Valid?
    ensures HasHeader(ConfigManagedBlock, Split(content).lines) <==> HasHeader(ConfigManagedBlock, BlockParts(content).inner)
  {
    hide HasHeader, InPlace, DetectBlock, BlockParts, Split, Join, WellFormed, Whole, SafeText, Scan;
    var p := BlockParts(content);
    HeaderIsInside(p);
    JoinSplits(Whole(p));
  }

  /**
   Frame: two files whose parts differ only inside the block have the same bytes up to
   the block and from its end on.
   */
  lemma SameOutside(content: string, out: string)
    requires DetectBlock(content).Valid? && DetectBlock(out).Valid?
    requires BlockParts(out) == BlockParts(content).(inner := BlockParts(out).inner)
    ensures var b, c := BoundsOf(BlockParts(content)), BoundsOf(BlockParts(out));
            out[..c.start] == content[..b.start] && out[c.end..] == content[b.end..]
            && out[c.start..c.end] == Join(BlockParts(out).inner)
  {
    hide DetectBlock, BlockParts, Split, Join, WellFormed, Whole, SafeText, Scan, InPlace;
    CutAtBounds(content, BlockParts(content));
    CutAtBounds(out, BlockParts(out));
  }
}
