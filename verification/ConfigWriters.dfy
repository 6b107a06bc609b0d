/**
 The writing side of src/update/config_migration.cpp: the checked byte writer, the
 transformations into the caller's buffers, and ApplyConfigChange, which leaves
 nothing written behind when it fails.
 */
module ConfigWriters {
  import opened ConfigText
  import opened ConfigDetect
  import opened ConfigHeaders
  import opened ConfigBlock
  import opened ConfigCmdline
  import opened ConfigPaths
  import opened ConfigRegistry
  import opened ConfigApply
  import opened ConfigReaders

  // ---------------------------------------------------------------- memory

  /** Only addresses start up to start + size may have changed. */
  ghost predicate OnlyAt(before: seq<char>, after: seq<char>, start: nat, size: nat)
    requires start + size <= |before|
  {
    |after| == |before| && after[..start] == before[..start] && after[start + size..] == before[start + size..]
  }

  lemma OnlyAtNothing(a: seq<char>, start: nat, size: nat)
    requires start + size <= |a|
    ensures OnlyAt(a, a, start, size)
  {
  }

  lemma OnlyAtAgain(a: seq<char>, b: seq<char>, c: seq<char>, start: nat, size: nat)
    requires start + size <= |a| && OnlyAt(a, b, start, size) && OnlyAt(b, c, start, size)
    ensures OnlyAt(a, c, start, size)
  {
  }

  /** Bytes beside a changed range are as before. */
  lemma BesideUnchanged(before: seq<char>, after: seq<char>, start: nat, size: nat, lo: nat, hi: nat)
    requires start + size <= |before| && OnlyAt(before, after, start, size) && lo <= hi <= |before|
    requires hi <= start || start + size <= lo || lo == hi
    ensures after[lo..hi] == before[lo..hi]
  {
    forall k | lo <= k < hi
      ensures after[k] == before[k]
    {
      if k < start {
        assert after[k] == after[..start][k];
      } else {
        assert after[k] == after[start + size..][k - start - size];
      }
    }
  }

  /** RangesOverlap; an address of None is a null pointer. */
  predicate RangesOverlap(a: Option<nat>, m: nat, b: Option<nat>, n: nat) {
    m != 0 && n != 0 && a.Some? && b.Some? && a.value < b.value + n && b.value < a.value + m
  }

  /** ConfigOutputFile: a buffer is an address and a capacity in one memory. */
  class Output {
    const path: string
    const data: Option<nat>
    const capacity: nat
    var written: nat

    constructor (path: string, data: Option<nat>, capacity: nat)
      ensures this.path == path && this.data == data && this.capacity == capacity && written == 0
    {
      this.path, this.data, this.capacity, written := path, data, capacity, 0;
    }

    /** A buffer that can be written to. */
    predicate Usable(memory: array<char>) {
      data.Some? && data.value + capacity <= memory.Length
    }

    /** The written part of the buffer is this text. */
    ghost predicate Holds(memory: array<char>, text: string)
      requires Usable(memory)
      reads this, memory
    {
      written == |text| <= capacity && memory[data.value..data.value + written] == text
    }
  }

  /** ByteWriter: appends to a buffer from its start, and fails for good once something did not fit. */
  class ByteWriter {
    const memory: array<char>
    const file: Output
    var size: nat
    var ok: bool
    ghost var text: string

    /** Everything appended so far is in the buffer, or did not fit. */
    ghost predicate Valid()
      reads this, memory
    {
      && file.Usable(memory)
      && (ok <==> |text| <= file.capacity)
      && (ok ==> size == |text| && memory[file.data.value..file.data.value + size] == text)
    }

    constructor (memory: array<char>, file: Output)
      requires file.Usable(memory)
      ensures this.memory == memory && this.file == file && text == "" && Valid() && ok
    {
      this.memory, this.file, size, ok, text := memory, file, 0, true, "";
    }

    method Append(data: string) returns (r: bool)
      requires Valid()
      modifies this, memory
      ensures Valid() && text == old(text) + data && r == ok
      ensures OnlyAt(old(memory[..]), memory[..], file.data.value, file.capacity)
    {
      var base := file.data.value;
      text := text + data;
      if !ok || |data| > file.capacity || size > file.capacity - |data| {
        ok := false;
        return false;
      }
      ghost var before := memory[..];
      CopyIn(memory, base + size, data);
      AppendedSlice(before, memory[..], base, size, data, file.capacity);
      size := size + |data|;
      return true;
    }

    method Finish() returns (r: bool)
      requires Valid()
      modifies file
      ensures r == ok && (r ==> file.Holds(memory, text)) && (!r ==> file.written == old(file.written))
    {
      if !ok { return false; }
      file.written := size;
      return true;
    }
  }

  /** memcpy to an address. */
  method CopyIn(memory: array<char>, at: nat, data: string)
    requires at + |data| <= memory.Length
    modifies memory
    ensures memory[at..at + |data|] == data && OnlyAt(old(memory[..]), memory[..], at, |data|)
  {
    for i := 0 to |data|
      invariant forall k :: 0 <= k < memory.Length ==> memory[k] == if at <= k < at + i then data[k - at] else old(memory[k])
    {
      memory[at + i] := data[i];
    }
  }

  /** What a copy behind a written part makes of the buffer. */
  lemma AppendedSlice(before: seq<char>, after: seq<char>, base: nat, size: nat, data: string, capacity: nat)
    requires size + |data| <= capacity && base + capacity <= |before|
    requires OnlyAt(before, after, base + size, |data|) && after[base + size..base + size + |data|] == data
    ensures after[base..base + size + |data|] == before[base..base + size] + data && OnlyAt(before, after, base, capacity)
  {
    BesideUnchanged(before, after, base + size, |data|, base, base + size);
    assert after[base..base + size + |data|] == after[base..base + size] + after[base + size..base + size + |data|];
    assert after[..base] == after[..base + size][..base] && before[..base] == before[..base + size][..base];
    var k := capacity - size - |data|;
    assert after[base + capacity..] == after[base + size + |data|..][k..];
    assert before[base + capacity..] == before[base + size + |data|..][k..];
  }

  // ---------------------------------------------------------------- numbers

  function Reversed(s: string): (r: string)
    ensures |r| == |s| && forall i :: 0 <= i < |s| ==> r[i] == s[|s| - 1 - i]
  {
    seq(|s|, i requires 0 <= i < |s| => s[|s| - 1 - i])
  }

  /** The digit loop: least significant digit first. */
  method DigitsBackwards(v: nat, digits: array<char>) returns (count: nat)
    requires v <= UINT32_MAX && digits.Length == 10
    modifies digits
    ensures 0 < count <= 10 && Reversed(digits[..count]) == Decimal(v)
  {
    hide DigitOf;
    ghost var whole := Decimal(v);
    assert |whole| <= 10 by { if v > 0 { DecimalRoundTrip(v); } }
    digits[0] := DigitOf(v % 10);
    var value: nat := v / 10;
    count := 1;
    assert Reversed(digits[..1]) == [DigitOf(v % 10)];
    while value != 0 && count < 10
      invariant 0 < count <= 10
      invariant whole == (if value == 0 then "" else Decimal(value)) + Reversed(digits[..count])
    {
      ghost var before := digits[..count];
      digits[count] := DigitOf(value % 10);
      assert digits[..count + 1] == before + [DigitOf(value % 10)];
      assert Reversed(digits[..count + 1]) == [DigitOf(value % 10)] + Reversed(before);
      DecimalStep(value);
      assert whole == (if value / 10 == 0 then "" else Decimal(value / 10)) + ([DigitOf(value % 10)] + Reversed(before));
      value := value / 10;
      count := count + 1;
    }
  }

  lemma DecimalStep(n: nat)
    ensures Decimal(n) == (if n / 10 == 0 then "" else Decimal(n / 10)) + [DigitOf(n % 10)]
  {
  }

  /** The swap loop that puts the digits in order. */
  method ReverseInPlace(digits: array<char>, count: nat)
    requires count <= digits.Length
    modifies digits
    ensures digits[..count] == Reversed(old(digits[..count]))
  {
    for i := 0 to count / 2
      invariant forall k :: 0 <= k < i ==> digits[k] == old(digits[count - 1 - k]) && digits[count - 1 - k] == old(digits[k])
      invariant forall k :: i <= k < count - i ==> digits[k] == old(digits[k])
    {
      digits[i], digits[count - 1 - i] := digits[count - 1 - i], digits[i];
    }
  }

  /** AppendUnsigned's digits. */
  method DecimalDigits(v: nat) returns (s: string)
    requires v <= UINT32_MAX
    ensures s == Decimal(v)
  {
    var digits := new char[10];
    var count := DigitsBackwards(v, digits);
    ReverseInPlace(digits, count);
    s := digits[..count];
  }

  // ---------------------------------------------------------------- transformations of one file

  method HeaderBytes(area: Area, v: nat) returns (s: string)
    requires v <= UINT32_MAX
    ensures s == HeaderLine(area, v).raw
  {
    var digits := DecimalDigits(v);
    s := SCHEMA_PREFIX + AreaIdentifier(area) + "=" + digits + "\n";
  }

  method WriteThree(memory: array<char>, out: Output, a: string, b: string, c: string) returns (ok: bool)
    requires out.Usable(memory)
    modifies out, memory
    ensures ok <==> |a + b + c| <= out.capacity
    ensures if ok then out.Holds(memory, a + b + c) else out.written == old(out.written)
    ensures OnlyAt(old(memory[..]), memory[..], out.data.value, out.capacity)
  {
    hide OnlyAt;
    ghost var m0 := memory[..];
    var writer := new ByteWriter(memory, out);
    ok := writer.Append(a);
    if !ok { return false; }
    ghost var m1 := memory[..];
    ok := writer.Append(b);
    OnlyAtAgain(m0, m1, memory[..], out.data.value, out.capacity);
    if !ok { return false; }
    ghost var m2 := memory[..];
    ok := writer.Append(c);
    OnlyAtAgain(m0, m2, memory[..], out.data.value, out.capacity);
    if !ok { return false; }
    assert "" + a + b + c == a + b + c;
    ok := writer.Finish();
  }

  /** AddConfigBlockHeader */
  method AddConfigBlockHeader(content: string, v: nat, memory: array<char>, out: Output) returns (ok: bool)
    requires v <= UINT32_MAX && out.Usable(memory)
    modifies out, memory
    ensures ok <==> DetectBlock(content).Valid? && |HeaderAdded(content, BoundsOf(BlockParts(content)), v)| <= out.capacity
    ensures if ok then out.Holds(memory, HeaderAdded(content, BoundsOf(BlockParts(content)), v)) else out.written == old(out.written)
    ensures OnlyAt(old(memory[..]), memory[..], out.data.value, out.capacity)
  {
    hide HeaderLine, DetectBlock, BlockParts, BoundsOf;
    var d, b := BlockLoop(content);
    if !d.Valid? { return false; }
    var header := HeaderBytes(ConfigManagedBlock, v);
    ok := WriteThree(memory, out, content[..b.start], header, content[b.start..]);
  }

  /** ReplaceConfigBlock */
  method ReplaceConfigBlock(content: string, defaults: string, memory: array<char>, out: Output) returns (ok: bool)
    requires out.Usable(memory)
    modifies out, memory
    ensures ok <==> DetectBlock(content).Valid? && DetectBlock(defaults).Valid?
                    && |Replaced(content, BoundsOf(BlockParts(content)), defaults, BoundsOf(BlockParts(defaults)))| <= out.capacity
    ensures if ok then out.Holds(memory, Replaced(content, BoundsOf(BlockParts(content)), defaults, BoundsOf(BlockParts(defaults))))
            else out.written == old(out.written)
    ensures OnlyAt(old(memory[..]), memory[..], out.data.value, out.capacity)
  {
    hide DetectBlock, BlockParts, BoundsOf;
    var d, b := BlockLoop(content);
    if !d.Valid? { return false; }
    var e, c := BlockLoop(defaults);
    if !e.Valid? { return false; }
    ok := WriteThree(memory, out, content[..b.start], defaults[c.start..c.end], content[b.end..]);
  }

  // ---------------------------------------------------------------- rewriting cmdline.txt

  lemma JoinOneMore(ts: seq<string>, t: string)
    ensures JoinTokens(ts + [t]) == if ts == [] then t else JoinTokens(ts) + " " + t
  {
    assert (ts + [t])[..|ts|] == ts;
  }

  lemma {:induction false} JoinLonger(a: seq<string>, b: seq<string>)
    ensures |JoinTokens(a)| <= |JoinTokens(a + b)|
    decreases |b|
  {
    hide JoinTokens;
    if b == [] {
      assert a + b == a;
    } else {
      var front, t := b[..|b| - 1], b[|b| - 1];
      assert a + b == a + front + [t];
      JoinOneMore(a + front, t);
      JoinLonger(a, front);
      if a + front == [] {
        NothingJoined();
      }
    }
  }

  lemma NothingJoined()
    ensures JoinTokens([]) == ""
  {
  }

  /** AppendCmdlineToken: a space before every token but the first. */
  method AppendToken(writer: ByteWriter, ghost done: seq<string>, have: bool, t: string) returns (ok: bool)
    requires writer.Valid() && writer.text == JoinTokens(done) && (have <==> done != []) && writer.ok
    modifies writer, writer.memory
    ensures writer.Valid() && ok == writer.ok && (ok <==> |JoinTokens(done + [t])| <= writer.file.capacity)
    ensures ok ==> writer.text == JoinTokens(done + [t])
    ensures OnlyAt(old(writer.memory[..]), writer.memory[..], writer.file.data.value, writer.file.capacity)
  {
    hide JoinTokens;
    JoinOneMore(done, t);
    NothingJoined();
    ghost var before := writer.memory[..];
    if have {
      ok := writer.Append(" ");
      if !ok { return false; }
    }
    ghost var between := writer.memory[..];
    ok := writer.Append(t);
    OnlyAtAgain(before, between, writer.memory[..], writer.file.data.value, writer.file.capacity);
  }

  function Where(pass: string -> bool, ts: seq<string>): seq<string> {
    if ts == [] then []
    else Where(pass, ts[..|ts| - 1]) + if pass(ts[|ts| - 1]) then [ts[|ts| - 1]] else []
  }

  lemma WhereSnoc(pass: string -> bool, ts: seq<string>, t: string)
    ensures Where(pass, ts + [t]) == if pass(t) then Where(pass, ts) + [t] else Where(pass, ts)
  {
    assert (ts + [t])[..|ts|] == ts && (ts + [t])[|ts|] == t;
    assert Where(pass, ts) + [] == Where(pass, ts);
  }

  lemma {:induction false} WherePrefix(done: seq<string>, pass: string -> bool, ts: seq<string>, k: nat)
    requires k <= |ts|
    ensures |JoinTokens(done + Where(pass, ts[..k]))| <= |JoinTokens(done + Where(pass, ts))|
    decreases |ts| - k
  {
    hide JoinTokens;
    if k < |ts| {
      WherePrefix(done, pass, ts, k + 1);
      assert ts[..k + 1] == ts[..k] + [ts[k]];
      WhereSnoc(pass, ts[..k], ts[k]);
      JoinLonger(done + Where(pass, ts[..k]), [ts[k]]);
      assert done + Where(pass, ts[..k]) + [ts[k]] == done + (Where(pass, ts[..k]) + [ts[k]]);
    } else {
      assert ts[..k] == ts;
    }
  }

  lemma WhereNothing(done: seq<string>, pass: string -> bool, ts: seq<string>)
    ensures done + Where(pass, ts[..0]) == done
  {
    assert ts[..0] == [];
  }

  lemma WhereStep(done: seq<string>, pass: string -> bool, ts: seq<string>, i: nat)
    requires i < |ts|
    ensures done + Where(pass, ts[..i + 1])
         == if pass(ts[i]) then done + Where(pass, ts[..i]) + [ts[i]] else done + Where(pass, ts[..i])
  {
    assert ts[..i + 1] == ts[..i] + [ts[i]];
    WhereSnoc(pass, ts[..i], ts[i]);
    assert done + Where(pass, ts[..i]) + [ts[i]] == done + (Where(pass, ts[..i]) + [ts[i]]);
  }

  /** A token loop of the rewrite: those that pass are appended, in order, up to the first that does not fit. */
  method AppendWhere(writer: ByteWriter, ghost done: seq<string>, have: bool, pass: string -> bool, ts: seq<string>)
    returns (ok: bool, have': bool)
    requires writer.Valid() && writer.text == JoinTokens(done) && writer.ok && (have <==> done != [])
    modifies writer, writer.memory
    ensures writer.Valid() && ok == writer.ok && (ok <==> |JoinTokens(done + Where(pass, ts))| <= writer.file.capacity)
    ensures ok ==> writer.text == JoinTokens(done + Where(pass, ts)) && (have' <==> done + Where(pass, ts) != [])
    ensures OnlyAt(old(writer.memory[..]), writer.memory[..], writer.file.data.value, writer.file.capacity)
  {
    hide JoinTokens, OnlyAt, Where;
    have' := have;
    ghost var before := writer.memory[..];
    OnlyAtNothing(before, writer.file.data.value, writer.file.capacity);
    WhereNothing(done, pass, ts);
    for i := 0 to |ts|
      invariant writer.Valid() && writer.ok && writer.text == JoinTokens(done + Where(pass, ts[..i]))
      invariant have' <==> done + Where(pass, ts[..i]) != []
      invariant OnlyAt(before, writer.memory[..], writer.file.data.value, writer.file.capacity)
    {
      ghost var now := done + Where(pass, ts[..i]);
      WhereStep(done, pass, ts, i);
      if pass(ts[i]) {
        ghost var between := writer.memory[..];
        var fits := AppendToken(writer, now, have', ts[i]);
        OnlyAtAgain(before, between, writer.memory[..], writer.file.data.value, writer.file.capacity);
        if !fits {
          WherePrefix(done, pass, ts, i + 1);
          return false, have';
        }
        have' := true;
      }
    }
    assert ts[..|ts|] == ts;
    return true, have';
  }

  function Keeps(a: Area, markerOnly: bool): string -> bool {
    (t: string) => !IsMarker(a, t) && (markerOnly || !Owns(a, t))
  }

  function Supplies(a: Area): string -> bool {
    (t: string) => Owns(a, t) && !IsMarker(a, t)
  }

  lemma {:induction false} KeptIsWhere(a: Area, markerOnly: bool, ts: seq<string>)
    ensures Kept(a, markerOnly, ts) == Where(Keeps(a, markerOnly), ts)
  {
    hide IsMarker, Owns;
    if ts != [] {
      KeptIsWhere(a, markerOnly, ts[..|ts| - 1]);
    }
  }

  lemma {:induction false} SuppliedIsWhere(a: Area, ts: seq<string>)
    ensures Unmarked(a, Own(a, ts)) == Where(Supplies(a), ts)
  {
    hide IsMarker, Owns;
    if ts != [] {
      var front, t := ts[..|ts| - 1], ts[|ts| - 1];
      assert ts == front + [t];
      SuppliedIsWhere(a, front);
      OwnSnoc(a, front, t);
      UnmarkedSnoc(a, Own(a, front), t);
      WhereSnoc(Supplies(a), front, t);
    }
  }

  /** The token part of the rewrite: kept tokens, the defaults' on a reset, the marker. */
  method WriteTokens(writer: ByteWriter, a: Area, ts: seq<string>, defaults: Option<seq<string>>, v: nat) returns (ok: bool)
    requires writer.Valid() && writer.text == "" && writer.ok && v <= UINT32_MAX
    modifies writer, writer.memory
    ensures writer.Valid() && ok == writer.ok && (ok <==> |JoinTokens(NewTokens(a, ts, defaults, v))| <= writer.file.capacity)
    ensures ok ==> writer.text == JoinTokens(NewTokens(a, ts, defaults, v))
    ensures OnlyAt(old(writer.memory[..]), writer.memory[..], writer.file.data.value, writer.file.capacity)
  {
    hide JoinTokens, Where, Keeps, Supplies, Own, Unmarked, Kept, Marker, OnlyAt;
    ghost var before := writer.memory[..];
    NothingJoined();
    var have := false;
    ghost var done: seq<string> := [];
    ghost var all := NewTokens(a, ts, defaults, v);
    KeptIsWhere(a, defaults.None?, ts);
    ghost var kept := Where(Keeps(a, defaults.None?), ts);
    assert [] + kept == kept;
    ok, have := AppendWhere(writer, [], have, Keeps(a, defaults.None?), ts);
    done := kept;
    if !ok {
      JoinLonger(kept, (if defaults.Some? then Unmarked(a, Own(a, defaults.value)) else []) + [Marker(a, v)]);
      assert all == kept + ((if defaults.Some? then Unmarked(a, Own(a, defaults.value)) else []) + [Marker(a, v)]);
      return;
    }
    if defaults.Some? {
      SuppliedIsWhere(a, defaults.value);
      ghost var between := writer.memory[..];
      ok, have := AppendWhere(writer, done, have, Supplies(a), defaults.value);
      OnlyAtAgain(before, between, writer.memory[..], writer.file.data.value, writer.file.capacity);
      done := done + Where(Supplies(a), defaults.value);
      if !ok {
        JoinLonger(done, [Marker(a, v)]);
        return;
      }
    }
    assert all == done + [Marker(a, v)] by { assert kept + [] == kept; }
    var marker := MarkerBytes(a, v);
    ghost var last := writer.memory[..];
    ok := AppendToken(writer, done, have, marker);
    OnlyAtAgain(before, last, writer.memory[..], writer.file.data.value, writer.file.capacity);
  }

  method MarkerBytes(a: Area, v: nat) returns (s: string)
    requires v <= UINT32_MAX
    ensures s == Marker(a, v)
  {
    var digits := DecimalDigits(v);
    s := SchemaKey(a) + "=" + digits;
  }

  /** RewriteCmdlineArea */
  method RewriteCmdlineArea(a: Area, content: string, defaults: Option<string>, v: nat, memory: array<char>, out: Output) returns (ok: bool)
    requires v <= UINT32_MAX && out.Usable(memory)
    modifies out, memory
    ensures ok <==> DetectLine(a, content).Valid? && (defaults.Some? ==> DetectLine(a, defaults.value).Valid?)
                    && |Rewritten(a, content, defaults, v)| <= out.capacity
    ensures if ok then out.Holds(memory, Rewritten(a, content, defaults, v)) else out.written == old(out.written)
    ensures OnlyAt(old(memory[..]), memory[..], out.data.value, out.capacity)
  {
    hide DetectLine, JoinTokens, NewTokens, LineTokens, OnlyAt;
    ghost var before := memory[..];
    OnlyAtNothing(before, out.data.value, out.capacity);
    var d, tokens, firstEnd := CmdlineLoop(a, content);
    if !d.Valid? { return false; }
    var supplied: Option<seq<string>> := None;
    if defaults.Some? {
      var e, given, _ := CmdlineLoop(a, defaults.value);
      if !e.Valid? { return false; }
      supplied := Some(given);
    }
    var writer := new ByteWriter(memory, out);
    ok := WriteTokens(writer, a, tokens, supplied, v);
    if !ok { return false; }
    ghost var between := memory[..];
    ok := writer.Append(content[firstEnd..]);
    OnlyAtAgain(before, between, memory[..], out.data.value, out.capacity);
    if !ok { return false; }
    ok := writer.Finish();
  }

  // ---------------------------------------------------------------- the outputs of a request

  function Sinks(outs: seq<Output>): (r: seq<Sink>)
    ensures |r| == |outs| && forall i :: 0 <= i < |r| ==> r[i] == Sink(outs[i].path, outs[i].capacity)
  {
    seq(|outs|, i requires 0 <= i < |outs| => Sink(outs[i].path, outs[i].capacity))
  }

  /** An input file's bytes and where they are. */
  datatype Input = Input(data: Option<nat>, content: string)

  predicate OutputsApart(a: Output, b: Output) {
    !RangesOverlap(a.data, a.capacity, b.data, b.capacity)
  }

  predicate InputApart(a: Output, b: Input) {
    !RangesOverlap(a.data, a.capacity, b.data, |b.content|)
  }

  /** No output is null or empty, and none overlaps another or an input. */
  predicate Independent(outs: seq<Output>, inputs: seq<Input>) {
    && (forall i :: 0 <= i < |outs| ==> outs[i].data.Some? && outs[i].capacity != 0)
    && (forall i, j :: 0 <= j < i < |outs| ==> OutputsApart(outs[i], outs[j]))
    && forall i, k :: 0 <= i < |outs| && 0 <= k < |inputs| ==> InputApart(outs[i], inputs[k])
  }

  /** OutputsAreIndependent */
  method OutputsAreIndependent(outs: seq<Output>, inputs: seq<Input>) returns (ok: bool)
    ensures ok <==> Independent(outs, inputs)
  {
    hide OutputsApart, InputApart;
    for i := 0 to |outs|
      invariant forall k :: 0 <= k < i ==> outs[k].data.Some? && outs[k].capacity != 0
      invariant forall k, j :: 0 <= j < k < i ==> OutputsApart(outs[k], outs[j])
      invariant forall k, j :: 0 <= k < i && 0 <= j < |inputs| ==> InputApart(outs[k], inputs[j])
    {
      if outs[i].data.None? || outs[i].capacity == 0 { return false; }
      for j := 0 to i
        invariant forall k :: 0 <= k < j ==> OutputsApart(outs[i], outs[k])
      {
        if !OutputsApart(outs[i], outs[j]) { return false; }
      }
      for j := 0 to |inputs|
        invariant forall k :: 0 <= k < j ==> InputApart(outs[i], inputs[k])
      {
        if !InputApart(outs[i], inputs[j]) { return false; }
      }
    }
    return true;
  }

  /** The entries of the output table are different entries, and their pointers are null or into memory. */
  predicate Entries(memory: array<char>, outs: seq<Output>) {
    && (forall i, j :: 0 <= i < j < |outs| ==> outs[i] != outs[j])
    && forall i :: 0 <= i < |outs| && outs[i].data.Some? ==> outs[i].Usable(memory)
  }

  /** Outputs that can be written without touching each other or an input. */
  predicate Writable(memory: array<char>, outs: seq<Output>, inputs: seq<Input>) {
    Entries(memory, outs) && Independent(outs, inputs)
  }

  ghost predicate AllHold(memory: array<char>, outs: seq<Output>, texts: seq<string>)
    requires |texts| == |outs|
    reads outs, memory
  {
    forall i :: 0 <= i < |outs| ==> outs[i].Usable(memory) && outs[i].Holds(memory, texts[i])
  }

  /** The inputs are in memory as the caller's views say. */
  ghost predicate InputsIn(memory: seq<char>, inputs: seq<Input>) {
    forall k :: 0 <= k < |inputs| ==>
      if inputs[k].data.Some?
      then inputs[k].data.value + |inputs[k].content| <= |memory|
           && memory[inputs[k].data.value..inputs[k].data.value + |inputs[k].content|] == inputs[k].content
      else inputs[k].content == ""
  }

  /** Writing one output leaves every input as it was. */
  lemma InputsStay(before: seq<char>, after: seq<char>, outs: seq<Output>, inputs: seq<Input>, i: nat)
    requires Independent(outs, inputs) && i < |outs| && InputsIn(before, inputs)
    requires outs[i].data.value + outs[i].capacity <= |before|
    requires OnlyAt(before, after, outs[i].data.value, outs[i].capacity)
    ensures InputsIn(after, inputs)
  {
    forall k | 0 <= k < |inputs| && inputs[k].data.Some?
      ensures after[inputs[k].data.value..inputs[k].data.value + |inputs[k].content|] == inputs[k].content
    {
      assert InputApart(outs[i], inputs[k]);
      var lo := inputs[k].data.value;
      BesideUnchanged(before, after, outs[i].data.value, outs[i].capacity, lo, lo + |inputs[k].content|);
    }
  }

  /** ... and every other output. */
  lemma OutputStays(before: seq<char>, after: seq<char>, outs: seq<Output>, inputs: seq<Input>, i: nat, k: nat, size: nat)
    requires Independent(outs, inputs) && k < i < |outs| && size <= outs[k].capacity
    requires outs[i].data.value + outs[i].capacity <= |before| && outs[k].data.value + outs[k].capacity <= |before|
    requires OnlyAt(before, after, outs[i].data.value, outs[i].capacity)
    ensures after[outs[k].data.value..outs[k].data.value + size] == before[outs[k].data.value..outs[k].data.value + size]
  {
    assert OutputsApart(outs[i], outs[k]);
    BesideUnchanged(before, after, outs[i].data.value, outs[i].capacity, outs[k].data.value, outs[k].data.value + size);
  }

  /** ClearWritten */
  method ClearWritten(outs: seq<Output>)
    modifies outs
    ensures forall i :: 0 <= i < |outs| ==> outs[i].written == 0
  {
    for i := 0 to |outs|
      invariant forall k :: 0 <= k < i ==> outs[k].written == 0
    {
      outs[i].written := 0;
    }
  }

  /** Which text goes to which output. */
  predicate Sourced(files: seq<File>, outs: seq<Output>, prefix: string, texts: seq<string>) {
    && |texts| == |outs|
    && forall i :: 0 <= i < |outs| ==>
         FindFile(files, outs[i].path).Some? && texts[i] == prefix + FindFile(files, outs[i].path).value.content
  }

  /** The loops of the header migration and of CopyDefaults: each output gets its file behind a prefix, until one does not fit. */
  method WriteEach(files: seq<File>, prefix: string, memory: array<char>, outs: seq<Output>, ghost inputs: seq<Input>, ghost texts: seq<string>)
    returns (ok: bool)
    requires Writable(memory, outs, inputs) && InputsIn(memory[..], inputs) && Sourced(files, outs, prefix, texts)
    modifies outs, memory
    ensures ok <==> AllFit(texts, Sinks(outs))
    ensures ok ==> AllHold(memory, outs, texts)
    ensures InputsIn(memory[..], inputs)
  {
    hide FindFile, OnlyAt, InputsIn, Independent;
    Buffers(memory, outs, inputs);
    for i := 0 to |outs|
      invariant InputsIn(memory[..], inputs)
      invariant forall k :: 0 <= k < i ==> |texts[k]| <= outs[k].capacity && outs[k].Holds(memory, texts[k])
    {
      var source := FindFile(files, outs[i].path);
      ghost var before := memory[..];
      var fits := WriteThree(memory, outs[i], prefix, source.value.content, "");
      assert prefix + source.value.content + "" == texts[i];
      InputsStay(before, memory[..], outs, inputs, i);
      if !fits { return false; }
      forall k | 0 <= k < i
        ensures outs[k].Holds(memory, texts[k])
      {
        OutputStays(before, memory[..], outs, inputs, i, k, |texts[k]|);
      }
    }
    return true;
  }

  lemma Buffers(memory: array<char>, outs: seq<Output>, inputs: seq<Input>)
    requires Writable(memory, outs, inputs)
    ensures forall i :: 0 <= i < |outs| ==> outs[i].Usable(memory)
  {
  }

  /** The header loop over the outputs, PrefixTextSchema on each. */
  method PrefixAll(files: seq<File>, area: Area, v: nat, memory: array<char>, outs: seq<Output>, ghost inputs: seq<Input>, ghost texts: seq<string>)
    returns (ok: bool)
    requires v <= UINT32_MAX && Writable(memory, outs, inputs) && InputsIn(memory[..], inputs)
    requires Sourced(files, outs, HeaderLine(area, v).raw, texts)
    modifies outs, memory
    ensures ok <==> AllFit(texts, Sinks(outs))
    ensures ok ==> AllHold(memory, outs, texts)
    ensures InputsIn(memory[..], inputs)
  {
    hide HeaderLine, Sourced, Writable, InputsIn, AllFit, AllHold;
    var header := HeaderBytes(area, v);
    ok := WriteEach(files, header, memory, outs, inputs, texts);
  }

  /** CopyDefaults */
  method CopyAll(files: seq<File>, memory: array<char>, outs: seq<Output>, ghost inputs: seq<Input>, ghost texts: seq<string>)
    returns (ok: bool)
    requires Writable(memory, outs, inputs) && InputsIn(memory[..], inputs) && Sourced(files, outs, "", texts)
    modifies outs, memory
    ensures ok <==> AllFit(texts, Sinks(outs))
    ensures ok ==> AllHold(memory, outs, texts)
    ensures InputsIn(memory[..], inputs)
  {
    ok := WriteEach(files, "", memory, outs, inputs, texts);
  }

  /** The switch over the transformations. */
  method Transform(reader: StateReader, req: Request, m: Migration, memory: array<char>, outs: seq<Output>, ghost inputs: seq<Input>)
    returns (ok: bool)
    requires Admitted(reader, req, m) && SinksServe(req, m, Sinks(outs)) && Writable(memory, outs, inputs) && InputsIn(memory[..], inputs)
    modifies outs, memory
    ensures ok <==> AllFit(NewContents(reader, req, m, Sinks(outs)), Sinks(outs))
    ensures ok ==> AllHold(memory, outs, NewContents(reader, req, m, Sinks(outs)))
    ensures InputsIn(memory[..], inputs)
  {
    hide ShapeOk, DetectArea, InputsIn, Independent, OnlyAt, BlockParts, DetectBlock, DetectLine;
    ghost var texts := NewContents(reader, req, m, Sinks(outs));
    if m.transform.TextHeader? {
      HeadersSourced(reader, req, m, outs);
      ok := PrefixAll(req.source.value.files, req.area, req.targetVersion, memory, outs, inputs, texts);
    } else if m.transform.ResetDefaults? {
      CopiesSourced(reader, req, m, outs);
      ok := CopyAll(req.defaults.value.files, memory, outs, inputs, texts);
    } else {
      OneOutput(reader, req, m, outs);
      Buffers(memory, outs, inputs);
      ghost var before := memory[..];
      ok := TransformOne(reader, req, m, memory, outs[0]);
      InputsStay(before, memory[..], outs, inputs, 0);
    }
  }

  lemma HeadersSourced(reader: StateReader, req: Request, m: Migration, outs: seq<Output>)
    requires Admitted(reader, req, m) && SinksServe(req, m, Sinks(outs)) && m.transform.TextHeader?
    ensures Sourced(req.source.value.files, outs, HeaderLine(req.area, req.targetVersion).raw, NewContents(reader, req, m, Sinks(outs)))
  {
    hide ShapeOk, DetectArea, HeaderLine, FindFile, PathBelongs;
  }

  lemma CopiesSourced(reader: StateReader, req: Request, m: Migration, outs: seq<Output>)
    requires Admitted(reader, req, m) && SinksServe(req, m, Sinks(outs)) && m.transform.ResetDefaults?
    ensures Sourced(req.defaults.value.files, outs, "", NewContents(reader, req, m, Sinks(outs)))
  {
    hide ShapeOk, DetectArea, FindFile, PathBelongs;
  }

  /** The transformations that write one file. */
  method TransformOne(reader: StateReader, req: Request, m: Migration, memory: array<char>, out: Output) returns (ok: bool)
    requires Admitted(reader, req, m) && !m.transform.TextHeader? && !m.transform.ResetDefaults?
    requires FindFile(req.source.value.files, out.path).Some? && out.Usable(memory)
    modifies out, memory
    ensures ok <==> |NewContent(reader, req, m, out.path)| <= out.capacity
    ensures ok ==> out.Holds(memory, NewContent(reader, req, m, out.path))
    ensures OnlyAt(old(memory[..]), memory[..], out.data.value, out.capacity)
  {
    hide ShapeOk, DetectArea, FindFile, BlockParts, BoundsOf, DetectBlock, DetectLine, HeaderAdded, Replaced, Rewritten, OnlyAt;
    OneFile(reader, req, m);
    CmdlinesValid(reader, req, m);
    var was, v := OnlyContent(req.source.value), req.targetVersion;
    match m.transform {
      case ConfigBlockHeader => ok := AddConfigBlockHeader(was, v, memory, out);
      case ResetConfigBlock => ok := ReplaceConfigBlock(was, OnlyContent(req.defaults.value), memory, out);
      case CmdlineMarker => ok := RewriteCmdlineArea(req.area, was, None, v, memory, out);
      case ResetCmdlineKeys => ok := RewriteCmdlineArea(req.area, was, Some(OnlyContent(req.defaults.value)), v, memory, out);
    }
  }

  lemma CmdlinesValid(reader: StateReader, req: Request, m: Migration)
    requires Admitted(reader, req, m) && !m.transform.TextHeader? && !m.transform.ResetDefaults?
    ensures CmdlineArea(req.area) ==> DetectLine(req.area, OnlyContent(req.source.value)).Valid?
    ensures CmdlineArea(req.area) && m.lossy ==> DetectLine(req.area, OnlyContent(req.defaults.value)).Valid?
  {
    hide DetectArea, ShapeOk, DetectBlock, DetectLine;
    OneFileAreas(reader, req.source.value);
    if m.lossy {
      OneFileAreas(reader, req.defaults.value);
    }
  }

  lemma OneOutput(reader: StateReader, req: Request, m: Migration, outs: seq<Output>)
    requires Admitted(reader, req, m) && SinksServe(req, m, Sinks(outs))
    requires !m.transform.TextHeader? && !m.transform.ResetDefaults?
    ensures |outs| == 1 && FindFile(req.source.value.files, outs[0].path).Some?
  {
    hide DetectArea, ShapeOk, DetectBlock, DetectLine, FindFile, PathBelongs;
    OneFileAreas(reader, req.source.value);
    assert Sinks(outs)[0].path == outs[0].path;
  }

  // ---------------------------------------------------------------- ApplyConfigChange

  /** The checks of a request in their order, with the detectors as they run. */
  method AdmitRequest(reader: StateReader, req: Request, sinks: seq<Sink>) returns (c: Choice)
    ensures c == Admit(reader, req, sinks)
  {
    hide RequestOk, FindCompiled, DetectArea, ShapeOk;
    RequestHasSource(req, sinks);
    if !RequestOk(req, sinks) { return Refused(InvalidInput); }
    var found := FindCompiled(req.id);
    if found.None? { return Refused(UnknownMigration); }
    var m := found.value;
    if m.area != req.area || m.from != req.sourceVersion || m.to != req.targetVersion { return Refused(MigrationMismatch); }
    var d := DetectLoop(reader, req.source.value);
    if d != Valid(req.sourceVersion) { return Refused(SourceRejected); }
    if m.lossy && !req.consent { return Refused(ResetConsentRequired); }
    if !m.lossy && req.consent { return Refused(MigrationMismatch); }
    if m.lossy {
      if req.defaults.None? { return Refused(DefaultsRequired); }
      if req.defaults.value.area != req.area || !ShapeOk(req.defaults.value) { return Refused(DefaultsRejected); }
      d := DetectLoop(reader, req.defaults.value);
      if d != Valid(req.targetVersion) { return Refused(DefaultsRejected); }
    }
    return Chosen(m);
  }

  lemma RequestHasSource(req: Request, sinks: seq<Sink>)
    ensures RequestOk(req, sinks) ==> req.source.Some?
  {
  }

  /** RevalidateOutputs on what the outputs hold. */
  method RevalidateOutputs(reader: StateReader, req: Request, memory: array<char>, outs: seq<Output>, ghost texts: seq<string>)
    returns (ok: bool)
    requires |texts| == |outs| && AllHold(memory, outs, texts)
    ensures ok <==> Revalidates(reader, req, Written(Sinks(outs), texts))
  {
    hide ShapeOk, DetectArea;
    var views: seq<File> := [];
    for i := 0 to |outs|
      invariant |views| == i && forall k :: 0 <= k < i ==> views[k] == File(outs[k].path, texts[k])
    {
      var at := outs[i].data.value;
      views := views + [File(outs[i].path, memory[at..at + outs[i].written])];
    }
    assert views == Written(Sinks(outs), texts);
    if !ShapeOk(Snapshot(req.area, views)) { return false; }
    var d := DetectLoop(reader, Snapshot(req.area, views));
    return d == Valid(req.targetVersion);
  }

  /** Some output is smaller than the source's first file. */
  method CapacityProblem(outs: seq<Output>, size: nat) returns (problem: bool)
    ensures problem <==> exists i :: 0 <= i < |outs| && Sinks(outs)[i].capacity < size
  {
    problem := false;
    for i := 0 to |outs|
      invariant problem <==> exists k :: 0 <= k < i && Sinks(outs)[k].capacity < size
    {
      assert Sinks(outs)[i].capacity == outs[i].capacity;
      if outs[i].capacity < size { problem := true; }
    }
  }

  /** The second half of ApplyConfigChange: from the output table on. */
  method WriteOutputs(reader: StateReader, req: Request, m: Migration, memory: array<char>, outs: seq<Output>, inputs: seq<Input>)
    returns (status: Option<Status>)
    requires Admitted(reader, req, m) && Entries(memory, outs) && InputsIn(memory[..], inputs)
    requires forall i :: 0 <= i < |outs| ==> outs[i].written == 0
    modifies outs, memory
    ensures InputsIn(memory[..], inputs)
    ensures match WriteOutcome(reader, req, m, Sinks(outs), Independent(outs, inputs))
            case Done(contents) => status.None? && |contents| == |outs| && AllHold(memory, outs, contents)
            case Rejected(reason) => status == Some(reason) && forall i :: 0 <= i < |outs| ==> outs[i].written == 0
  {
    hide Admitted, SinksMatch, Roomy, NewContents, AllFit, Revalidates, Expected, Offers, AllHold, InputsIn, Independent, Entries;
    var sinks := Sinks(outs);
    ExpectedIsThere(reader, req, m);
    if !SinksMatch(Expected(req, m), sinks) { return Some(OutputCountMismatch); }
    var independent := OutputsAreIndependent(outs, inputs);
    if !independent { return Some(AliasedOutput); }
    if !Roomy(req, m, sinks) { return Some(OutputTooSmall); }
    var transformed := Transform(reader, req, m, memory, outs, inputs);
    ghost var texts := NewContents(reader, req, m, sinks);
    if !transformed {
      ClearWritten(outs);
      var problem := CapacityProblem(outs, |OnlyContent(req.source.value)|);
      return Some(if problem then OutputTooSmall else TransformFailed);
    }
    var valid := RevalidateOutputs(reader, req, memory, outs, texts);
    if !valid {
      ClearWritten(outs);
      return Some(SemanticRevalidationFailed);
    }
    return None;
  }

  lemma ExpectedIsThere(reader: StateReader, req: Request, m: Migration)
    requires Admitted(reader, req, m)
    ensures req.source.Some? && (m.lossy ==> req.defaults.Some?) && Offers(m)
  {
  }

  /** The inputs are the files of the source and of the defaults. */
  predicate InputsOf(req: Request, inputs: seq<Input>) {
    var source := if req.source.Some? then req.source.value.files else [];
    var defaults := if req.defaults.Some? then req.defaults.value.files else [];
    && |inputs| == |source| + |defaults|
    && (forall i :: 0 <= i < |source| ==> inputs[i].content == source[i].content)
    && forall i :: 0 <= i < |defaults| ==> inputs[|source| + i].content == defaults[i].content
  }

  /**
   ApplyConfigChange: the outcome of the specification, in the caller's buffers, and
   the bytes of source and defaults are never modified, wherever in memory they and
   the buffers are. On failure nothing is left written; only a table of more than 16
   outputs, which is refused before it is touched, keeps the marks it came with.
   */
  method ApplyConfigChange(reader: StateReader, req: Request, memory: array<char>, outs: seq<Output>, inputs: seq<Input>)
    returns (status: Option<Status>)
    requires Entries(memory, outs) && InputsOf(req, inputs) && InputsIn(memory[..], inputs)
    modifies outs, memory
    ensures InputsIn(memory[..], inputs)
    ensures match Apply(reader, req, Sinks(outs), Independent(outs, inputs))
            case Done(contents) => status.None? && |contents| == |outs| && AllHold(memory, outs, contents)
            case Rejected(reason) => status == Some(reason)
    ensures status.Some? && |outs| <= MAX_FILES ==> forall i :: 0 <= i < |outs| ==> outs[i].written == 0
    ensures |outs| > MAX_FILES ==> status.Some? && forall i :: 0 <= i < |outs| ==> outs[i].written == old(outs[i].written)
  {
    hide Admit, WriteOutcome, Admitted, AllHold, InputsIn, Independent, Entries;
    TooManySinks(reader, req, Sinks(outs));
    if |outs| <= MAX_FILES {
      ClearWritten(outs);
    }
    var choice := AdmitRequest(reader, req, Sinks(outs));
    if choice.Refused? { return Some(choice.status); }
    AdmitEstablishes(reader, req, Sinks(outs));
    status := WriteOutputs(reader, req, choice.m, memory, outs, inputs);
  }

  lemma TooManySinks(reader: StateReader, req: Request, sinks: seq<Sink>)
    ensures |sinks| > MAX_FILES ==> Admit(reader, req, sinks) == Refused(InvalidInput)
  {
  }
}
