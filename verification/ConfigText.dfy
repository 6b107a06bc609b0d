/**
 The text layer of src/update/config_migration.cpp: bytes are characters, numbers
 are decimal, files are lines, the first line of cmdline.txt is tokens. Each
 reader has the writer that inverts it.
 */
module ConfigText {
  datatype Option<T> = None | Some(value: T)

  const UINT32_MAX: nat := 0xFFFF_FFFF
  const MAX_LINE: nat := 4096
  const MAX_FILE: nat := 512 * 1024

  predicate IsBlank(c: char) { c == ' ' || c == '\t' }
  predicate IsBreak(c: char) { c == '\n' || c == '\r' }
  predicate IsDigit(c: char) { '0' <= c <= '9' }

  predicate SafeChar(c: char) {
    c == '\n' || c == '\r' || c == '\t' || ' ' <= c <= '~'
  }

  /** IsSafeText */
  predicate SafeText(s: string) {
    |s| <= MAX_FILE && forall i :: 0 <= i < |s| ==> SafeChar(s[i])
  }

  // ---------------------------------------------------------------- numbers

  function DigitOf(d: nat): char
    requires d < 10
  {
    ['0', '1', '2', '3', '4', '5', '6', '7', '8', '9'][d]
  }

  function DigitValue(c: char): nat
    requires IsDigit(c)
  {
    (c as int) - ('0' as int)
  }

  /** The digits AppendUnsigned writes. */
  function Decimal(n: nat): (s: string)
    ensures s != "" && forall i :: 0 <= i < |s| ==> IsDigit(s[i])
  {
    if n < 10 then [DigitOf(n)] else Decimal(n / 10) + [DigitOf(n % 10)]
  }

  /** The loop of ParsePositiveDecimal: fails as soon as the value leaves 32 bits. */
  function DecimalValue(s: string): Option<nat> {
    if s == "" then Some(0)
    else
      var front := DecimalValue(s[..|s| - 1]);
      var c := s[|s| - 1];
      if front.None? || !IsDigit(c) then None
      else if front.value > (UINT32_MAX - DigitValue(c)) / 10 then None
      else Some(front.value * 10 + DigitValue(c))
  }

  function ParsePositiveDecimal(s: string): Option<nat> {
    if |s| == 0 || |s| > 10 then None
    else
      var v := DecimalValue(s);
      if v.None? || v.value == 0 then None else v
  }

  lemma {:induction false} DecimalReads(n: nat)
    requires n <= UINT32_MAX
    ensures DecimalValue(Decimal(n)) == Some(n)
  {
    var s := Decimal(n);
    if n < 10 {
      assert s[..0] == "" && DecimalValue(s[..0]) == Some(0);
      DigitRoundTrip(n);
    } else {
      assert s[..|s| - 1] == Decimal(n / 10);
      DecimalReads(n / 10);
      DigitRoundTrip(n % 10);
    }
  }

  lemma DigitRoundTrip(d: nat)
    requires d < 10
    ensures IsDigit(DigitOf(d)) && DigitValue(DigitOf(d)) == d
  {
  }

  lemma {:induction false} DecimalLength(n: nat, k: nat)
    requires k > 0 && n < Power10(k)
    ensures |Decimal(n)| <= k
    decreases k
  {
    if n >= 10 {
      DecimalLength(n / 10, k - 1);
    }
  }

  function Power10(k: nat): nat {
    if k == 0 then 1 else 10 * Power10(k - 1)
  }

  /** Every version a file can carry is read back as written. */
  lemma DecimalRoundTrip(n: nat)
    requires 0 < n <= UINT32_MAX
    ensures ParsePositiveDecimal(Decimal(n)) == Some(n) && |Decimal(n)| <= 10
  {
    DecimalReads(n);
    assert Power10(5) == 100_000 by {
      assert Power10(3) == 1000;
    }
    assert Power10(10) == 10_000_000_000 by {
      assert Power10(8) == 10 * (10 * (10 * Power10(5)));
    }
    DecimalLength(n, 10);
  }

  // ---------------------------------------------------------------- slices

  function TrimLeft(s: string): string {
    if s != "" && IsBlank(s[0]) then TrimLeft(s[1..]) else s
  }

  function TrimRight(s: string): string {
    if s != "" && IsBlank(s[|s| - 1]) then TrimRight(s[..|s| - 1]) else s
  }

  function Trim(s: string): string {
    TrimRight(TrimLeft(s))
  }

  lemma TrimIdentity(s: string)
    requires s != "" && !IsBlank(s[0]) && !IsBlank(s[|s| - 1])
    ensures Trim(s) == s
  {
  }

  predicate StartsWith(s: string, p: string) {
    |p| <= |s| && s[..|p|] == p
  }

  /** The index of the first `=`, or the length. */
  function EqualsAt(s: string): (e: nat)
    ensures e <= |s| && (e < |s| ==> s[e] == '=') && forall i :: 0 <= i < e ==> s[i] != '='
  {
    if s == "" || s[0] == '=' then 0 else 1 + EqualsAt(s[1..])
  }

  lemma {:induction false} EqualsAfter(key: string, rest: string)
    requires '=' !in key
    ensures EqualsAt(key + "=" + rest) == |key|
  {
    var s := key + "=" + rest;
    assert s[|key|] == '=';
    forall i | 0 <= i < |key|
      ensures s[i] != '='
    {
      assert s[i] == key[i] && key[i] in key;
    }
  }

  predicate IdentifierChar(c: char) {
    'a' <= c <= 'z' || 'A' <= c <= 'Z' || '0' <= c <= '9' || c == '_' || c == '-' || c == '.' || c == ':'
  }

  predicate IsIdentifier(s: string) {
    0 < |s| <= 64 && forall i :: 0 <= i < |s| ==> IdentifierChar(s[i])
  }

  // ---------------------------------------------------------------- lines

  /** One line: its text, and its bytes with the line break. */
  datatype Line = Line(text: string, raw: string)

  /** The length of the text before the first break. */
  function TextEnd(s: string): (e: nat)
    ensures e <= |s| && (e < |s| ==> IsBreak(s[e])) && forall i :: 0 <= i < e ==> !IsBreak(s[i])
  {
    if s == "" || IsBreak(s[0]) then 0 else 1 + TextEnd(s[1..])
  }

  predicate Terminated(l: Line) {
    l.raw == l.text + "\n" || l.raw == l.text + "\r\n"
  }

  predicate PlainText(s: string) {
    |s| <= MAX_LINE && forall i :: 0 <= i < |s| ==> !IsBreak(s[i])
  }

  predicate WholeLine(l: Line) {
    PlainText(l.text) && (Terminated(l) || (l.raw == l.text && l.text != ""))
  }

  /** NextLine at the start of a non-empty text; None is a corrupt line. */
  function FirstLine(s: string): (r: Option<Line>)
    requires s != ""
    ensures r.Some? ==> WholeLine(r.value) && 0 < |r.value.raw| <= |s| && s[..|r.value.raw|] == r.value.raw
  {
    var e := TextEnd(s);
    if e > MAX_LINE then None
    else if e == |s| then Some(Line(s, s))
    else if s[e] == '\n' then Some(Line(s[..e], s[..e + 1]))
    else if e + 1 < |s| && s[e + 1] == '\n' then
      assert s[..e + 2] == s[..e] + "\r\n";
      Some(Line(s[..e], s[..e + 2]))
    else None
  }

  /** The lines of a file up to its end or its first corrupt line. */
  datatype Lines = Lines(lines: seq<Line>, clean: bool)

  function Split(s: string): Lines
    decreases |s|
  {
    if s == "" then Lines([], true)
    else
      var first := FirstLine(s);
      if first.None? then Lines([], false)
      else
        var rest := Split(s[|first.value.raw|..]);
        Lines([first.value] + rest.lines, rest.clean)
  }

  function Join(lines: seq<Line>): string {
    if lines == [] then "" else lines[0].raw + Join(lines[1..])
  }

  /** Lines that a file can consist of: only the last may lack its break. */
  predicate WellFormed(lines: seq<Line>) {
    forall i :: 0 <= i < |lines| ==> WholeLine(lines[i]) && (i + 1 < |lines| ==> Terminated(lines[i]))
  }

  lemma {:induction false} SplitJoins(s: string)
    requires Split(s).clean
    ensures WellFormed(Split(s).lines) && Join(Split(s).lines) == s
    decreases |s|
  {
    hide FirstLine, WholeLine, Terminated;
    if s != "" {
      var first := FirstLine(s).value;
      var rest := s[|first.raw|..];
      SplitJoins(rest);
      assert s == first.raw + rest;
      assert Split(s).lines == [first] + Split(rest).lines;
      if rest != "" {
        LineThenMore(s);
      }
    }
  }

  lemma LineThenMore(s: string)
    requires s != "" && FirstLine(s).Some? && |FirstLine(s).value.raw| < |s|
    ensures Terminated(FirstLine(s).value)
  {
  }

  lemma {:induction false} TextEndOf(text: string, rest: string)
    requires (forall i :: 0 <= i < |text| ==> !IsBreak(text[i])) && (rest != "" ==> IsBreak(rest[0]))
    ensures TextEnd(text + rest) == |text|
  {
    if text == "" {
      assert text + rest == rest;
    } else {
      assert (text + rest)[1..] == text[1..] + rest;
      TextEndOf(text[1..], rest);
    }
  }

  lemma FirstLineOf(l: Line, rest: string)
    requires WholeLine(l) && (rest != "" ==> Terminated(l))
    ensures l.raw + rest != "" && FirstLine(l.raw + rest) == Some(l)
  {
    var s := l.raw + rest;
    if l.raw == l.text + "\n" {
      assert s == l.text + ("\n" + rest);
      TextEndOf(l.text, "\n" + rest);
    } else if l.raw == l.text + "\r\n" {
      assert s == l.text + ("\r\n" + rest);
      TextEndOf(l.text, "\r\n" + rest);
      assert s[..|l.text| + 2] == l.raw;
    } else {
      assert s == l.text + "";
      TextEndOf(l.text, "");
    }
  }

  /** Splitting inverts joining, so a text edited at line boundaries has the edited lines. */
  lemma {:induction false} JoinSplits(lines: seq<Line>)
    requires WellFormed(lines)
    ensures Split(Join(lines)) == Lines(lines, true)
  {
    hide FirstLine, WholeLine, Terminated;
    if lines != [] {
      var head, rest := lines[0], Join(lines[1..]);
      if |lines| == 1 {
        assert rest == "";
      }
      JoinSplits(lines[1..]);
      FirstLineOf(head, rest);
      assert (head.raw + rest)[|head.raw|..] == rest;
      assert [head] + lines[1..] == lines;
    }
  }

  lemma {:induction false} JoinAppend(a: seq<Line>, b: seq<Line>)
    ensures Join(a + b) == Join(a) + Join(b)
  {
    if a == [] {
      assert a + b == b;
    } else {
      assert (a + b)[1..] == a[1..] + b;
      JoinAppend(a[1..], b);
    }
  }

  // ---------------------------------------------------------------- tokens

  /** The length of the leading run without blanks. */
  function TokenEnd(s: string): (e: nat)
    ensures e <= |s| && (e < |s| ==> IsBlank(s[e])) && forall i :: 0 <= i < e ==> !IsBlank(s[i])
  {
    if s == "" || IsBlank(s[0]) then 0 else 1 + TokenEnd(s[1..])
  }

  /** The blank-separated tokens of a line. */
  function Tokens(s: string): seq<string>
    decreases |s|
  {
    if s == "" then []
    else if IsBlank(s[0]) then Tokens(s[1..])
    else [s[..TokenEnd(s)]] + Tokens(s[TokenEnd(s)..])
  }

  predicate IsToken(t: string) {
    t != "" && forall i :: 0 <= i < |t| ==> !IsBlank(t[i])
  }

  /** AppendCmdlineToken over a list: one space between tokens. */
  function JoinTokens(ts: seq<string>): string {
    if ts == [] then "" else if |ts| == 1 then ts[0] else JoinTokens(ts[..|ts| - 1]) + " " + ts[|ts| - 1]
  }

  lemma {:induction false} TokensAreTokens(s: string)
    ensures forall t :: t in Tokens(s) ==> IsToken(t)
    decreases |s|
  {
    if s != "" {
      TokensAreTokens(if IsBlank(s[0]) then s[1..] else s[TokenEnd(s)..]);
    }
  }

  lemma {:induction false} TokenEndOf(t: string, rest: string)
    requires IsToken(t) && (rest != "" ==> IsBlank(rest[0]))
    ensures TokenEnd(t + rest) == |t|
  {
    var s := t + rest;
    if |t| == 1 {
      assert s[1..] == rest;
    } else {
      assert s[1..] == t[1..] + rest;
      TokenEndOf(t[1..], rest);
    }
  }

  /** Tokenising distributes over a blank. */
  lemma {:induction false} TokensAppend(a: string, b: string)
    requires b != "" ==> IsBlank(b[0])
    ensures Tokens(a + b) == Tokens(a) + Tokens(b)
    decreases |a|
  {
    if a == "" {
      assert a + b == b;
    } else if IsBlank(a[0]) {
      assert (a + b)[1..] == a[1..] + b;
      TokensAppend(a[1..], b);
    } else {
      var e := TokenEnd(a);
      var t, more := a[..e], a[e..];
      assert a == t + more && a + b == t + (more + b);
      TokenEndOf(t, more + b);
      assert (a + b)[e..] == more + b && (a + b)[..e] == t;
      TokensAppend(more, b);
    }
  }

  lemma SingleToken(t: string)
    requires IsToken(t)
    ensures Tokens(t) == [t] && Tokens(" " + t) == [t]
  {
    assert t + "" == t;
    TokenEndOf(t, "");
    assert (" " + t)[1..] == t;
  }

  /** Reading the tokens that were written gives them back. */
  lemma {:induction false} TokensRoundTrip(ts: seq<string>)
    requires forall t :: t in ts ==> IsToken(t)
    ensures Tokens(JoinTokens(ts)) == ts
  {
    if ts != [] {
      var front, last := ts[..|ts| - 1], ts[|ts| - 1];
      assert ts == front + [last];
      SingleToken(last);
      if front != [] {
        TokensRoundTrip(front);
        TokensAppend(JoinTokens(front), " " + last);
        assert JoinTokens(front) + " " + last == JoinTokens(front) + (" " + last);
      }
    }
  }
}
