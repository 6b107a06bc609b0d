/**
 The two areas that share cmdline.txt (src/update/config_migration.cpp): machine
 keys and network keys. A rewrite of one area keeps the other one as it is.
 */
module ConfigCmdline {
  import opened ConfigText
  import opened ConfigDetect

  const MACHINE_KEYS := ["fast", "pi5kms", "framebuffer_depth", "bmx_video_mode", "cycles_per_refresh", "cycles_per_second",
                         "machine_timing", "audio_out", "enable_dpi", "hdmi_group", "hdmi_mode", "pi5kms_timings",
                         "scaling_params", "scaling_params2", "raster_skip", "raster_skip2", "bmx_schema_cmdline_managed"]

  const NETWORK_KEYS := ["network", "network_dhcp", "network_ip", "network_netmask", "network_gateway", "network_dns",
                         "network_ssid", "network_psk", "network_country", "network_wait_ms", "network_test_host",
                         "network_test_port", "rs232net", "rs232net_mode", "rs232net_interface", "rs232net_target",
                         "rs232net_phonebook", "rs232net_baud", "rs232net_ip232", "rs232net_hayes_audio",
                         "rs232net_ascii_case", "bmx_schema_network"]

  predicate CmdlineArea(a: Area) { a.CmdlineManagedKeys? || a.Network? }

  /** KeyBelongsToCmdlineArea */
  predicate Belongs(a: Area, key: string) {
    if a.CmdlineManagedKeys? then key in MACHINE_KEYS else key in NETWORK_KEYS
  }

  function SchemaKey(a: Area): string {
    if a.CmdlineManagedKeys? then "bmx_schema_cmdline_managed" else "bmx_schema_network"
  }

  lemma SchemaKeyFacts(a: Area)
    ensures Belongs(a, SchemaKey(a)) && '=' !in SchemaKey(a) && IsIdentifier(SchemaKey(a)) && |SchemaKey(a)| <= 26
  {
    if a.CmdlineManagedKeys? {
      assert MACHINE_KEYS[16] == SchemaKey(a);
    } else {
      assert NETWORK_KEYS[21] == SchemaKey(a);
    }
  }

  /** The letters that tell a network key from a machine key. */
  predicate NetworkLike(key: string) {
    |key| >= 4 && (key[0] == 'n' || (key[0] == 'r' && key[1] == 's') || (key[0] == 'b' && |key| > 11 && key[11] == 'n'))
  }

  lemma AreasDisjoint(key: string)
    ensures !(key in MACHINE_KEYS && key in NETWORK_KEYS)
  {
    if key in NETWORK_KEYS {
      NetworkKeysAlike(key);
    }
    if key in MACHINE_KEYS {
      MachineKeysDiffer(key);
    }
  }

  lemma NetworkKeysAlike(key: string)
    requires key in NETWORK_KEYS
    ensures NetworkLike(key)
  {
  }

  lemma MachineKeysDiffer(key: string)
    requires key in MACHINE_KEYS
    ensures !NetworkLike(key)
  {
  }

  // ---------------------------------------------------------------- tokens

  /** A token is a key, with a value when it has an equals sign inside. */
  datatype Token = BadToken | Token(key: string, value: Option<string>)

  function TokenOf(t: string): Token {
    var e := EqualsAt(t);
    if e == |t| then Token(t, None)
    else if e == 0 || e + 1 >= |t| then BadToken
    else Token(t[..e], Some(t[e + 1..]))
  }

  predicate Shaped(t: string) {
    TokenOf(t).Token? && IsIdentifier(TokenOf(t).key)
  }

  predicate Owns(a: Area, t: string) {
    TokenOf(t).Token? && Belongs(a, TokenOf(t).key)
  }

  predicate IsMarker(a: Area, t: string) {
    TokenOf(t).Token? && TokenOf(t).key == SchemaKey(a)
  }

  /** One turn of ParseCmdline's token loop; None lets the loop go on. */
  function TokenFault(a: Area, seen: seq<string>, t: string): Option<Detection> {
    var tok := TokenOf(t);
    if |seen| >= MAX_TOKENS then Some(LimitExceeded)
    else if tok.BadToken? || !IsIdentifier(tok.key) then Some(Corrupt)
    else if tok.value.Some? && IsMarker(a, t)
            && ((exists i :: 0 <= i < |seen| && IsMarker(a, seen[i])) || ParsePositiveDecimal(tok.value.value).None?)
    then Some(Corrupt)
    else if Owns(a, t) && (tok.value.None? || SeenOwn(a, seen, tok.key))
    then Some(Corrupt)
    else None
  }

  function TokensFault(a: Area, ts: seq<string>): Option<Detection> {
    if ts == [] then None
    else
      var front := TokensFault(a, ts[..|ts| - 1]);
      if front.Some? then front else TokenFault(a, ts[..|ts| - 1], ts[|ts| - 1])
  }

  /** The tokens of one area, in order. */
  function Own(a: Area, ts: seq<string>): seq<string> {
    if ts == [] then []
    else Own(a, ts[..|ts| - 1]) + if Owns(a, ts[|ts| - 1]) then [ts[|ts| - 1]] else []
  }

  /** An area's token has a value, and its marker a version. */
  predicate OwnOk(a: Area, t: string) {
    TokenOf(t).Token? && TokenOf(t).value.Some? && (IsMarker(a, t) ==> ParsePositiveDecimal(TokenOf(t).value.value).Some?)
  }

  /** What the tokens of one area must satisfy among themselves. */
  predicate OwnGood(a: Area, own: seq<string>) {
    && (forall i :: 0 <= i < |own| ==> OwnOk(a, own[i]))
    && (forall i, j :: 0 <= i < j < |own| ==> TokenOf(own[i]) != BadToken && TokenOf(own[j]) != BadToken && TokenOf(own[i]).key != TokenOf(own[j]).key)
  }

  predicate Good(a: Area, ts: seq<string>) {
    |ts| <= MAX_TOKENS && AllShaped(ts) && OwnGood(a, Own(a, ts))
  }

  /** The version the marker carries, 1 without one. */
  function MarkerVersion(a: Area, own: seq<string>): nat {
    if own == [] then 1
    else
      var t := own[|own| - 1];
      if IsMarker(a, t) && OwnOk(a, t) then ParsePositiveDecimal(TokenOf(t).value.value).value
      else MarkerVersion(a, own[..|own| - 1])
  }

  lemma {:induction false} OwnMembers(a: Area, ts: seq<string>, t: string)
    ensures t in Own(a, ts) <==> t in ts && Owns(a, t)
  {
    if ts != [] {
      assert ts == ts[..|ts| - 1] + [ts[|ts| - 1]];
      OwnMembers(a, ts[..|ts| - 1], t);
    }
  }

  lemma OwnGoodGrows(a: Area, own: seq<string>, t: string)
    requires TokenOf(t).Token?
    ensures OwnGood(a, own + [t]) <==>
              OwnGood(a, own) && OwnOk(a, t) && forall x :: x in own ==> TokenOf(x).Token? && TokenOf(x).key != TokenOf(t).key
  {
    hide OwnOk, TokenOf, IsMarker;
    var s := own + [t];
    if OwnGood(a, s) {
      assert forall i :: 0 <= i < |own| ==> s[i] == own[i];
      assert s[|own|] == t;
    }
  }

  lemma OwnSnoc(a: Area, ts: seq<string>, t: string)
    ensures Own(a, ts + [t]) == if Owns(a, t) then Own(a, ts) + [t] else Own(a, ts)
  {
    hide Owns;
    assert (ts + [t])[..|ts|] == ts && (ts + [t])[|ts|] == t;
    assert Own(a, ts) + [] == Own(a, ts);
  }

  predicate AllShaped(ts: seq<string>) {
    forall i :: 0 <= i < |ts| ==> Shaped(ts[i])
  }

  lemma AllShapedSnoc(ts: seq<string>, t: string)
    ensures AllShaped(ts + [t]) <==> AllShaped(ts) && Shaped(t)
  {
    hide Shaped;
    var s := ts + [t];
    assert s[|ts|] == t && forall i :: 0 <= i < |ts| ==> s[i] == ts[i];
  }

  /** Some token already seen has this key in this area. */
  predicate SeenOwn(a: Area, seen: seq<string>, key: string) {
    exists i :: 0 <= i < |seen| && Owns(a, seen[i]) && TokenOf(seen[i]).key == key
  }

  lemma SeenIsOwn(a: Area, seen: seq<string>, key: string)
    ensures SeenOwn(a, seen, key) <==> exists x :: x in Own(a, seen) && TokenOf(x).Token? && TokenOf(x).key == key
  {
    hide TokenOf;
    forall x
      ensures x in Own(a, seen) <==> x in seen && Owns(a, x)
    {
      OwnMembers(a, seen, x);
    }
  }

  lemma MarkerSeen(a: Area, seen: seq<string>)
    ensures (exists i :: 0 <= i < |seen| && IsMarker(a, seen[i])) ==> SeenOwn(a, seen, SchemaKey(a))
  {
    hide TokenOf, SchemaKey, Belongs;
    SchemaKeyFacts(a);
  }

  lemma LastTokenExact(a: Area, front: seq<string>, t: string)
    requires Good(a, front)
    ensures TokenFault(a, front, t).None? <==> Good(a, front + [t])
  {
    hide IsIdentifier, ParsePositiveDecimal, OwnGood, SchemaKey, Belongs, Own;
    OwnSnoc(a, front, t);
    AllShapedSnoc(front, t);
    MarkersAreOwned(a, t);
    if Shaped(t) && Owns(a, t) {
      OwnGoodGrows(a, Own(a, front), t);
      SeenIsOwn(a, front, TokenOf(t).key);
      MarkerSeen(a, front);
      OwnGoodTokens(a, Own(a, front));
    }
  }

  lemma OwnGoodTokens(a: Area, own: seq<string>)
    requires OwnGood(a, own)
    ensures forall x :: x in own ==> TokenOf(x).Token?
  {
    forall x | x in own
      ensures TokenOf(x).Token?
    {
      var i :| 0 <= i < |own| && own[i] == x;
      assert OwnOk(a, own[i]);
    }
  }

  /** The token loop accepts exactly the good token lists. */
  lemma {:induction false} TokensFaultExact(a: Area, ts: seq<string>)
    ensures TokensFault(a, ts).None? <==> Good(a, ts)
  {
    if ts != [] {
      var front, t := ts[..|ts| - 1], ts[|ts| - 1];
      assert ts == front + [t];
      TokensFaultExact(a, front);
      if Good(a, front) {
        LastTokenExact(a, front, t);
      } else if Good(a, ts) {
        GoodPrefix(a, front, t);
        assert false;
      }
    }
  }

  lemma GoodPrefix(a: Area, front: seq<string>, t: string)
    requires Good(a, front + [t])
    ensures Good(a, front)
  {
    hide OwnGood, AllShaped, Own, Owns;
    OwnSnoc(a, front, t);
    AllShapedSnoc(front, t);
    if Owns(a, t) {
      OwnsIsToken(a, t);
      OwnGoodGrows(a, Own(a, front), t);
    }
  }

  lemma OwnsIsToken(a: Area, t: string)
    requires Owns(a, t)
    ensures TokenOf(t).Token?
  {
  }

  // ---------------------------------------------------------------- the file

  /** Later lines may only be comments. */
  function CommentStep(st: (), line: string): Step<()> {
    if line != "" && line[0] != '#' then Stop(UnknownFormat) else Next(st)
  }

  /** Where line two starts; None when the break is corrupt. */
  function SecondLine(content: string): (r: Option<nat>)
    ensures r.Some? ==> TextEnd(content) <= r.value <= |content|
  {
    var e := TextEnd(content);
    if e == |content| then Some(e)
    else if content[e] == '\n' then Some(e + 1)
    else if e + 1 < |content| && content[e + 1] == '\n' then Some(e + 2)
    else None
  }

  function CommentsFault(rest: string): Option<Detection> {
    var split := Split(rest);
    match Scan(CommentStep, split.lines, ())
    case Stop(d) => Some(d)
    case Next(_) => if split.clean then None else Some(Corrupt)
  }

  /** ParseCmdline's checks before it looks at tokens. */
  function FileFault(content: string): Option<Detection> {
    if |content| > MAX_CMDLINE || !SafeText(content) then Some(Corrupt)
    else if TextEnd(content) > MAX_LINE then Some(LimitExceeded)
    else
      var second := SecondLine(content);
      if second.None? then Some(Corrupt) else CommentsFault(content[second.value..])
  }

  function LineTokens(content: string): seq<string> {
    Tokens(content[..TextEnd(content)])
  }

  /** ParseCmdline's verdict for one area. */
  function DetectLine(a: Area, content: string): Detection {
    var fault := FileFault(content);
    if fault.Some? then fault.value
    else
      var tokens := LineTokens(content);
      var bad := TokensFault(a, tokens);
      if bad.Some? then bad.value else Valid(MarkerVersion(a, Own(a, tokens)))
  }

  function DetectCmdline(a: Area, files: seq<File>): Detection {
    if files == [] then Missing
    else if |files| != 1 || files[0].path != "cmdline.txt" then Corrupt
    else DetectLine(a, files[0].content)
  }

  lemma FaultsAreFaults(a: Area, content: string)
    ensures FileFault(content).Some? ==> !FileFault(content).value.Valid?
    ensures TokensFault(a, LineTokens(content)).Some? ==> !TokensFault(a, LineTokens(content)).value.Valid?
  {
    CommentsStop(Split(if SecondLine(content).Some? then content[SecondLine(content).value..] else "").lines);
    TokensStop(a, LineTokens(content));
  }

  lemma {:induction false} CommentsStop(lines: seq<Line>)
    ensures Scan(CommentStep, lines, ()).Stop? ==> !Scan(CommentStep, lines, ()).result.Valid?
  {
    if lines != [] {
      CommentsStop(lines[1..]);
    }
  }

  lemma {:induction false} TokensStop(a: Area, ts: seq<string>)
    ensures TokensFault(a, ts).Some? ==> !TokensFault(a, ts).value.Valid?
  {
    if ts != [] {
      TokensStop(a, ts[..|ts| - 1]);
    }
  }

  /** Valid exactly when the file and its tokens are in order. */
  lemma DetectLineExact(a: Area, content: string)
    ensures DetectLine(a, content).Valid? <==> FileFault(content).None? && Good(a, LineTokens(content))
    ensures DetectLine(a, content).Valid? ==> DetectLine(a, content) == Valid(MarkerVersion(a, Own(a, LineTokens(content))))
  {
    hide FileFault, TokensFault, Good, MarkerVersion, LineTokens;
    FaultsAreFaults(a, content);
    TokensFaultExact(a, LineTokens(content));
  }

  // ---------------------------------------------------------------- rewriting one area

  function Marker(a: Area, v: nat): string {
    SchemaKey(a) + "=" + Decimal(v)
  }

  /** The tokens of a list that are not the area's marker. */
  function Unmarked(a: Area, ts: seq<string>): seq<string> {
    if ts == [] then []
    else Unmarked(a, ts[..|ts| - 1]) + if IsMarker(a, ts[|ts| - 1]) then [] else [ts[|ts| - 1]]
  }

  /** The source tokens a rewrite keeps: a marker update drops the marker, a reset the whole area. */
  function Kept(a: Area, markerOnly: bool, ts: seq<string>): seq<string> {
    if ts == [] then []
    else
      var t := ts[|ts| - 1];
      Kept(a, markerOnly, ts[..|ts| - 1]) + if IsMarker(a, t) || (!markerOnly && Owns(a, t)) then [] else [t]
  }

  /** Kept tokens, then the area's defaults on a reset, then the new marker. */
  function NewTokens(a: Area, ts: seq<string>, defaults: Option<seq<string>>, v: nat): seq<string> {
    Kept(a, defaults.None?, ts)
    + (if defaults.Some? then Unmarked(a, Own(a, defaults.value)) else [])
    + [Marker(a, v)]
  }

  /** RewriteCmdlineArea's output. */
  function Rewritten(a: Area, content: string, defaults: Option<string>, v: nat): string {
    JoinTokens(NewTokens(a, LineTokens(content), if defaults.Some? then Some(LineTokens(defaults.value)) else None, v))
    + content[TextEnd(content)..]
  }

  lemma MarkerParses(a: Area, v: nat)
    requires 0 < v <= UINT32_MAX
    ensures TokenOf(Marker(a, v)) == Token(SchemaKey(a), Some(Decimal(v))) && ParsePositiveDecimal(Decimal(v)) == Some(v)
  {
    hide SchemaKey, Decimal, ParsePositiveDecimal;
    var m, k := Marker(a, v), SchemaKey(a);
    SchemaKeyFacts(a);
    DecimalRoundTrip(v);
    EqualsAfter(k, Decimal(v));
    assert m[..|k|] == k && m[|k| + 1..] == Decimal(v);
  }

  lemma MarkerChars(a: Area, v: nat)
    requires 0 < v <= UINT32_MAX
    ensures forall i :: 0 <= i < |Marker(a, v)| ==> ' ' < Marker(a, v)[i] <= '~'
    ensures IsToken(Marker(a, v)) && |Marker(a, v)| <= 37
  {
    hide SchemaKey, Decimal;
    var m, k := Marker(a, v), SchemaKey(a);
    SchemaKeyFacts(a);
    DecimalRoundTrip(v);
    forall i | 0 <= i < |m|
      ensures ' ' < m[i] <= '~'
    {
      if i < |k| {
        assert m[i] == k[i];
      } else if i > |k| {
        assert m[i] == Decimal(v)[i - |k| - 1];
      }
    }
  }

  lemma MarkerFacts(a: Area, v: nat)
    requires 0 < v <= UINT32_MAX
    ensures Shaped(Marker(a, v)) && IsMarker(a, Marker(a, v)) && Owns(a, Marker(a, v)) && OwnOk(a, Marker(a, v))
    ensures TokenOf(Marker(a, v)).value.Some? && ParsePositiveDecimal(TokenOf(Marker(a, v)).value.value) == Some(v)
  {
    hide SchemaKey, Marker, Belongs, TokenOf;
    MarkerParses(a, v);
    SchemaKeyFacts(a);
  }

  // ---------------------------------------------------------------- what the rewrite does to each area

  lemma {:induction false} OwnAppend(a: Area, x: seq<string>, y: seq<string>)
    ensures Own(a, x + y) == Own(a, x) + Own(a, y)
    decreases |y|
  {
    if y == [] {
      assert x + y == x;
    } else {
      var front := y[..|y| - 1];
      assert (x + y)[..|x + y| - 1] == x + front;
      OwnAppend(a, x, front);
    }
  }

  lemma {:induction false} KeptMembers(a: Area, markerOnly: bool, ts: seq<string>, t: string)
    ensures t in Kept(a, markerOnly, ts) ==> t in ts
    ensures |Kept(a, markerOnly, ts)| <= |ts|
  {
    if ts != [] {
      assert ts == ts[..|ts| - 1] + [ts[|ts| - 1]];
      KeptMembers(a, markerOnly, ts[..|ts| - 1], t);
    }
  }

  lemma {:induction false} UnmarkedMembers(a: Area, ts: seq<string>, t: string)
    ensures t in Unmarked(a, ts) <==> t in ts && !IsMarker(a, t)
  {
    if ts != [] {
      assert ts == ts[..|ts| - 1] + [ts[|ts| - 1]];
      UnmarkedMembers(a, ts[..|ts| - 1], t);
    }
  }

  lemma KeptSnoc(a: Area, markerOnly: bool, ts: seq<string>, t: string)
    ensures Kept(a, markerOnly, ts + [t])
         == if IsMarker(a, t) || (!markerOnly && Owns(a, t)) then Kept(a, markerOnly, ts) else Kept(a, markerOnly, ts) + [t]
  {
    hide Owns, IsMarker;
    assert (ts + [t])[..|ts|] == ts && (ts + [t])[|ts|] == t;
    assert Kept(a, markerOnly, ts) + [] == Kept(a, markerOnly, ts);
  }

  lemma UnmarkedSnoc(a: Area, ts: seq<string>, t: string)
    ensures Unmarked(a, ts + [t]) == if IsMarker(a, t) then Unmarked(a, ts) else Unmarked(a, ts) + [t]
  {
    hide IsMarker;
    assert (ts + [t])[..|ts|] == ts && (ts + [t])[|ts|] == t;
    assert Unmarked(a, ts) + [] == Unmarked(a, ts);
  }

  /** Nothing of another area is dropped. */
  lemma {:induction false} KeptLeavesOther(a: Area, o: Area, markerOnly: bool, ts: seq<string>)
    requires CmdlineArea(a) && CmdlineArea(o) && a != o
    ensures Own(o, Kept(a, markerOnly, ts)) == Own(o, ts)
  {
    hide IsMarker, Owns;
    if ts != [] {
      var front, t := ts[..|ts| - 1], ts[|ts| - 1];
      assert ts == front + [t];
      KeptLeavesOther(a, o, markerOnly, front);
      OwnsOne(a, o, t);
      KeptSnoc(a, markerOnly, front, t);
      OwnSnoc(o, Kept(a, markerOnly, front), t);
      OwnSnoc(o, front, t);
    }
  }

  lemma SingleOwn(o: Area, t: string)
    ensures Own(o, [t]) == if Owns(o, t) then [t] else []
  {
    hide Owns;
    assert [t][..0] == [];
  }

  lemma OwnsOne(a: Area, o: Area, t: string)
    requires CmdlineArea(a) && CmdlineArea(o) && a != o
    ensures Owns(o, t) ==> !Owns(a, t) && !IsMarker(a, t)
  {
    hide TokenOf;
    if TokenOf(t).Token? {
      AreasDisjoint(TokenOf(t).key);
      SchemaKeyFacts(a);
    }
  }

  /** A marker update leaves the area's other tokens; a reset leaves none. */
  lemma {:induction false} KeptOwn(a: Area, markerOnly: bool, ts: seq<string>)
    ensures Own(a, Kept(a, markerOnly, ts)) == if markerOnly then Unmarked(a, Own(a, ts)) else []
  {
    hide IsMarker, Owns;
    if ts != [] {
      var front, t := ts[..|ts| - 1], ts[|ts| - 1];
      assert ts == front + [t];
      KeptOwn(a, markerOnly, front);
      MarkersAreOwned(a, t);
      KeptSnoc(a, markerOnly, front, t);
      OwnSnoc(a, Kept(a, markerOnly, front), t);
      OwnSnoc(a, front, t);
      UnmarkedSnoc(a, Own(a, front), t);
    }
  }

  lemma MarkersAreOwned(a: Area, t: string)
    ensures IsMarker(a, t) ==> Owns(a, t)
  {
    hide Belongs, SchemaKey, TokenOf;
    SchemaKeyFacts(a);
  }

  lemma {:induction false} UnmarkedGood(a: Area, own: seq<string>)
    requires OwnGood(a, own)
    ensures OwnGood(a, Unmarked(a, own))
  {
    hide OwnOk, IsMarker;
    if own != [] {
      var front, t := own[..|own| - 1], own[|own| - 1];
      assert own == front + [t];
      OwnTokenIsToken(a, own, |own| - 1);
      OwnGoodGrows(a, front, t);
      UnmarkedGood(a, front);
      forall x | x in Unmarked(a, front)
        ensures x in front
      {
        UnmarkedMembers(a, front, x);
      }
      OwnGoodGrows(a, Unmarked(a, front), t);
    }
  }

  lemma OwnTokenIsToken(a: Area, own: seq<string>, i: nat)
    requires OwnGood(a, own) && i < |own|
    ensures TokenOf(own[i]).Token?
  {
    assert OwnOk(a, own[i]);
  }

  /** With its marker replaced, an area is good again and has the new version. */
  lemma RemarkedGood(a: Area, own: seq<string>, v: nat)
    requires OwnGood(a, own) && 0 < v <= UINT32_MAX
    ensures OwnGood(a, Unmarked(a, own) + [Marker(a, v)])
    ensures MarkerVersion(a, Unmarked(a, own) + [Marker(a, v)]) == v
  {
    hide Marker, TokenOf, ParsePositiveDecimal, SchemaKey, Belongs, Shaped;
    MarkerFacts(a, v);
    UnmarkedGood(a, own);
    var rest, m := Unmarked(a, own), Marker(a, v);
    forall x | x in rest
      ensures TokenOf(x).Token? && TokenOf(x).key != TokenOf(m).key
    {
      UnmarkedMembers(a, own, x);
      var i :| 0 <= i < |own| && own[i] == x;
      OwnTokenIsToken(a, own, i);
    }
    OwnGoodGrows(a, rest, m);
  }

  /** The rewritten area: its old tokens, or the defaults', under the new marker. */
  lemma NewOwn(a: Area, ts: seq<string>, defaults: Option<seq<string>>, v: nat)
    requires 0 < v <= UINT32_MAX
    ensures Own(a, NewTokens(a, ts, defaults, v))
         == Unmarked(a, Own(a, if defaults.Some? then defaults.value else ts)) + [Marker(a, v)]
  {
    hide Marker, IsMarker, Owns;
    var kept, m := Kept(a, defaults.None?, ts), Marker(a, v);
    var added := if defaults.Some? then Unmarked(a, Own(a, defaults.value)) else [];
    KeptOwn(a, defaults.None?, ts);
    MarkerFacts(a, v);
    SingleOwn(a, m);
    OwnAppend(a, kept + added, [m]);
    OwnAppend(a, kept, added);
    if defaults.Some? {
      AllOwned(a, defaults.value);
      assert [] + added == added;
    } else {
      assert Own(a, added) == [];
    }
  }

  lemma {:induction false} OwnAll(a: Area, ts: seq<string>)
    requires forall t :: t in ts ==> Owns(a, t)
    ensures Own(a, ts) == ts
  {
    hide Owns;
    if ts != [] {
      OwnAll(a, ts[..|ts| - 1]);
    }
  }

  lemma AllOwned(a: Area, ts: seq<string>)
    ensures Own(a, Unmarked(a, Own(a, ts))) == Unmarked(a, Own(a, ts))
  {
    hide Owns, IsMarker;
    forall t | t in Unmarked(a, Own(a, ts))
      ensures Owns(a, t)
    {
      UnmarkedMembers(a, Own(a, ts), t);
      OwnMembers(a, ts, t);
    }
    OwnAll(a, Unmarked(a, Own(a, ts)));
  }

  lemma {:induction false} OwnNone(o: Area, ts: seq<string>)
    requires forall t :: t in ts ==> !Owns(o, t)
    ensures Own(o, ts) == []
  {
    hide Owns;
    if ts != [] {
      OwnNone(o, ts[..|ts| - 1]);
    }
  }

  /** The other area's tokens are exactly what they were, in order. */
  lemma NewLeavesOther(a: Area, o: Area, ts: seq<string>, defaults: Option<seq<string>>, v: nat)
    requires CmdlineArea(a) && CmdlineArea(o) && a != o && 0 < v <= UINT32_MAX
    ensures Own(o, NewTokens(a, ts, defaults, v)) == Own(o, ts)
  {
    hide Marker, IsMarker, Owns, Own, Kept, Unmarked;
    var kept, m := Kept(a, defaults.None?, ts), Marker(a, v);
    var added := (if defaults.Some? then Unmarked(a, Own(a, defaults.value)) else []) + [m];
    KeptLeavesOther(a, o, defaults.None?, ts);
    MarkerFacts(a, v);
    forall t | t in added
      ensures !Owns(o, t)
    {
      OwnsOne(a, o, t);
      if t != m {
        UnmarkedMembers(a, Own(a, defaults.value), t);
        OwnMembers(a, defaults.value, t);
      }
    }
    OwnNone(o, added);
    OwnAppend(o, kept, added);
    assert NewTokens(a, ts, defaults, v) == kept + added;
    assert Own(o, ts) + [] == Own(o, ts);
  }

  // ---------------------------------------------------------------- the rewritten file

  predicate CharsOf(t: string, s: string) {
    forall i :: 0 <= i < |t| ==> t[i] in s
  }

  lemma {:induction false} TokensChars(s: string)
    ensures forall t :: t in Tokens(s) ==> CharsOf(t, s)
    decreases |s|
  {
    if s != "" {
      var rest := if IsBlank(s[0]) then s[1..] else s[TokenEnd(s)..];
      TokensChars(rest);
      forall t | t in Tokens(rest)
        ensures CharsOf(t, s)
      {
        assert CharsOf(t, rest);
        assert forall c :: c in rest ==> c in s;
      }
    }
  }

  /** A token that can stand in a rewritten first line. */
  predicate Printable(t: string) {
    IsToken(t) && forall i :: 0 <= i < |t| ==> SafeChar(t[i]) && !IsBreak(t[i])
  }

  lemma LineTokensPrintable(content: string)
    requires forall i :: 0 <= i < |content| ==> SafeChar(content[i])
    ensures forall t :: t in LineTokens(content) ==> Printable(t)
  {
    hide SafeChar, IsBreak;
    var line := content[..TextEnd(content)];
    TokensAreTokens(line);
    TokensChars(line);
    forall t | t in LineTokens(content)
      ensures Printable(t)
    {
      forall i | 0 <= i < |t|
        ensures SafeChar(t[i]) && !IsBreak(t[i])
      {
        assert CharsOf(t, line);
        var k :| 0 <= k < |line| && line[k] == t[i];
      }
    }
  }

  lemma {:induction false} JoinPrintable(ts: seq<string>)
    requires forall t :: t in ts ==> Printable(t)
    ensures forall i :: 0 <= i < |JoinTokens(ts)| ==> SafeChar(JoinTokens(ts)[i]) && !IsBreak(JoinTokens(ts)[i])
  {
    if |ts| == 1 {
      assert ts[0] in ts;
    } else if |ts| > 1 {
      var front, last := ts[..|ts| - 1], ts[|ts| - 1];
      assert last in ts;
      JoinPrintable(front);
    }
  }

  lemma NewTokensPrintable(a: Area, ts: seq<string>, defaults: Option<seq<string>>, v: nat)
    requires 0 < v <= UINT32_MAX && (forall t :: t in ts ==> Printable(t))
    requires defaults.Some? ==> forall t :: t in defaults.value ==> Printable(t)
    ensures forall t :: t in NewTokens(a, ts, defaults, v) ==> Printable(t)
  {
    hide Marker, IsMarker, Owns, Own, Kept, Unmarked, IsToken;
    MarkerChars(a, v);
    assert Printable(Marker(a, v));
    hide Printable;
    forall t | t in NewTokens(a, ts, defaults, v)
      ensures Printable(t)
    {
      KeptMembers(a, defaults.None?, ts, t);
      if defaults.Some? {
        UnmarkedMembers(a, Own(a, defaults.value), t);
        OwnMembers(a, defaults.value, t);
      }
    }
  }

  predicate SafeChars(s: string) {
    forall i :: 0 <= i < |s| ==> SafeChar(s[i])
  }

  function DefaultTokens(defaults: Option<string>): Option<seq<string>> {
    if defaults.Some? then Some(LineTokens(defaults.value)) else None
  }

  /**
   Re-tokenising the output of a rewrite gives exactly the kept tokens in order, the
   area's defaults on a reset, and the new marker; everything after line one is
   byte for byte what it was.
   */
  lemma RewriteRetokenises(a: Area, content: string, defaults: Option<string>, v: nat)
    requires 0 < v <= UINT32_MAX && SafeChars(content) && (defaults.Some? ==> SafeChars(defaults.value))
    ensures var out := Rewritten(a, content, defaults, v);
            && LineTokens(out) == NewTokens(a, LineTokens(content), DefaultTokens(defaults), v)
            && out[TextEnd(out)..] == content[TextEnd(content)..]
            && SafeChars(out)
            && TextEnd(out) == |JoinTokens(NewTokens(a, LineTokens(content), DefaultTokens(defaults), v))|
  {
    hide NewTokens, LineTokens, SafeChar, JoinTokens;
    var ts := NewTokens(a, LineTokens(content), DefaultTokens(defaults), v);
    LineTokensPrintable(content);
    if defaults.Some? {
      LineTokensPrintable(defaults.value);
    }
    NewTokensPrintable(a, LineTokens(content), DefaultTokens(defaults), v);
    FileFromTokens(ts, content);
  }

  lemma FileFromTokens(ts: seq<string>, content: string)
    requires (forall t :: t in ts ==> Printable(t)) && SafeChars(content)
    ensures var out := JoinTokens(ts) + content[TextEnd(content)..];
            && LineTokens(out) == ts && out[TextEnd(out)..] == content[TextEnd(content)..]
            && SafeChars(out) && TextEnd(out) == |JoinTokens(ts)|
  {
    hide SafeChar, JoinTokens;
    var line, rest := JoinTokens(ts), content[TextEnd(content)..];
    var out := line + rest;
    JoinPrintable(ts);
    TextEndOf(line, rest);
    assert out[..|line|] == line && out[|line|..] == rest;
    TokensRoundTrip(ts);
    assert SafeChars(out) by {
      forall i | 0 <= i < |out|
        ensures SafeChar(out[i])
      {
        if i < |line| {
          assert out[i] == line[i];
        } else {
          assert out[i] == content[TextEnd(content) + (i - |line|)];
        }
      }
    }
  }

  /** The break after line one is read the same wherever line one ends. */
  lemma SecondLineOf(text: string, rest: string)
    requires (forall i :: 0 <= i < |text| ==> !IsBreak(text[i])) && (rest != "" ==> IsBreak(rest[0]))
    ensures SecondLine(text + rest).Some? <==> SecondLine(rest).Some?
    ensures SecondLine(rest).Some? ==>
              SecondLine(text + rest) == Some(|text| + SecondLine(rest).value)
              && (text + rest)[|text| + SecondLine(rest).value..] == rest[SecondLine(rest).value..]
  {
    TextEndOf(text, rest);
    TextEndOf("", rest);
    assert "" + rest == rest;
  }

  /** What follows line one is read the same after any line one. */
  lemma RestFault(text: string, rest: string)
    requires (forall i :: 0 <= i < |text| ==> !IsBreak(text[i])) && (rest != "" ==> IsBreak(rest[0]))
    requires |text + rest| <= MAX_CMDLINE && SafeText(text + rest) && |text| <= MAX_LINE
    ensures FileFault(text + rest)
         == if SecondLine(rest).None? then Some(Corrupt) else CommentsFault(rest[SecondLine(rest).value..])
  {
    hide CommentsFault, SecondLine, SafeText;
    TextEndOf(text, rest);
    SecondLineOf(text, rest);
  }

  /** Whether the rest of the file is in order does not depend on line one. */
  lemma SameRestSameFault(content: string, out: string)
    requires out[TextEnd(out)..] == content[TextEnd(content)..] && FileFault(content).None?
    requires SafeChars(out) && |out| <= MAX_CMDLINE && TextEnd(out) <= MAX_LINE
    ensures FileFault(out).None?
  {
    assert |content| <= MAX_CMDLINE && SafeText(content) && TextEnd(content) <= MAX_LINE && SafeText(out);
    hide CommentsFault, SecondLine, SafeText, FileFault, SafeChars;
    var rest := content[TextEnd(content)..];
    assert content == content[..TextEnd(content)] + rest;
    RestFault(content[..TextEnd(content)], rest);
    assert out == out[..TextEnd(out)] + rest;
    RestFault(out[..TextEnd(out)], rest);
  }

  /** Where a rewrite's output is within the limits of the file, the line and the token table. */
  predicate RewriteFits(a: Area, content: string, defaults: Option<string>, v: nat) {
    var out := Rewritten(a, content, defaults, v);
    |out| <= MAX_CMDLINE && TextEnd(out) <= MAX_LINE && |LineTokens(out)| <= MAX_TOKENS
  }

  /**
   Re-detection: a rewrite of a valid area that fits the limits is valid with the new
   version, and the area's tokens are the old or the default ones under the new marker.
   */
  lemma RewriteRedetects(a: Area, content: string, defaults: Option<string>, v: nat)
    requires 0 < v <= UINT32_MAX && DetectLine(a, content).Valid? && (defaults.Some? ==> DetectLine(a, defaults.value).Valid?)
    requires RewriteFits(a, content, defaults, v)
    ensures var out := Rewritten(a, content, defaults, v);
            && DetectLine(a, out) == Valid(v)
            && Own(a, LineTokens(out))
               == Unmarked(a, Own(a, LineTokens(if defaults.Some? then defaults.value else content))) + [Marker(a, v)]
  {
    hide TokensFault, Rewritten, LineTokens, NewTokens, Own, OwnGood, MarkerVersion, AllShaped, DetectLine;
    var out := Rewritten(a, content, defaults, v);
    DetectLineExact(a, content);
    ValidIsSafe(a, content);
    if defaults.Some? {
      DetectLineExact(a, defaults.value);
      ValidIsSafe(a, defaults.value);
    }
    RewriteRetokenises(a, content, defaults, v);
    SameRestSameFault(content, out);
    NewOwn(a, LineTokens(content), DefaultTokens(defaults), v);
    RemarkedGood(a, Own(a, LineTokens(if defaults.Some? then defaults.value else content)), v);
    NewShaped(a, LineTokens(content), DefaultTokens(defaults), v);
    DetectLineExact(a, out);
  }

  lemma ValidIsSafe(a: Area, content: string)
    requires FileFault(content).None?
    ensures SafeChars(content)
  {
  }

  lemma NewShaped(a: Area, ts: seq<string>, defaults: Option<seq<string>>, v: nat)
    requires 0 < v <= UINT32_MAX && AllShaped(ts) && (defaults.Some? ==> AllShaped(defaults.value))
    ensures AllShaped(NewTokens(a, ts, defaults, v))
  {
    hide Marker, IsMarker, Owns, Own, Kept, Unmarked, Shaped;
    MarkerFacts(a, v);
    var all := NewTokens(a, ts, defaults, v);
    forall i | 0 <= i < |all|
      ensures Shaped(all[i])
    {
      KeptMembers(a, defaults.None?, ts, all[i]);
      if defaults.Some? {
        UnmarkedMembers(a, Own(a, defaults.value), all[i]);
        OwnMembers(a, defaults.value, all[i]);
      }
    }
  }

  /**
   Frame: a rewrite of one area leaves the other area's tokens as they were, and if
   that area was valid it still is, with the same version.
   */
  lemma RewriteKeepsOther(a: Area, o: Area, content: string, defaults: Option<string>, v: nat)
    requires CmdlineArea(a) && CmdlineArea(o) && a != o && 0 < v <= UINT32_MAX
    requires DetectLine(a, content).Valid? && (defaults.Some? ==> DetectLine(a, defaults.value).Valid?)
    requires RewriteFits(a, content, defaults, v)
    ensures var out := Rewritten(a, content, defaults, v);
            && Own(o, LineTokens(out)) == Own(o, LineTokens(content))
            && (DetectLine(o, content).Valid? ==> DetectLine(o, out) == DetectLine(o, content))
  {
    hide TokensFault, Rewritten, LineTokens, NewTokens, Own, OwnGood, MarkerVersion, AllShaped, DetectLine;
    var out := Rewritten(a, content, defaults, v);
    DetectLineExact(a, content);
    ValidIsSafe(a, content);
    if defaults.Some? {
      DetectLineExact(a, defaults.value);
      ValidIsSafe(a, defaults.value);
    }
    RewriteRetokenises(a, content, defaults, v);
    SameRestSameFault(content, out);
    NewLeavesOther(a, o, LineTokens(content), DefaultTokens(defaults), v);
    NewShaped(a, LineTokens(content), DefaultTokens(defaults), v);
    DetectLineExact(o, content);
    DetectLineExact(o, out);
  }

  lemma ValidWithinLimits(a: Area, content: string)
    requires DetectLine(a, content).Valid?
    ensures |content| <= MAX_CMDLINE && TextEnd(content) <= MAX_LINE && |LineTokens(content)| <= MAX_TOKENS
  {
    hide TokensFault, LineTokens, OwnGood, AllShaped, SafeText, CommentsFault, Own, MarkerVersion;
    DetectLineExact(a, content);
  }

  /** A rewrite of a valid area is valid exactly when it fits the limits. */
  lemma RewriteExact(a: Area, content: string, defaults: Option<string>, v: nat)
    requires 0 < v <= UINT32_MAX && DetectLine(a, content).Valid? && (defaults.Some? ==> DetectLine(a, defaults.value).Valid?)
    ensures DetectLine(a, Rewritten(a, content, defaults, v)) == Valid(v) <==> RewriteFits(a, content, defaults, v)
  {
    hide DetectLine, Rewritten, LineTokens;
    if RewriteFits(a, content, defaults, v) {
      RewriteRedetects(a, content, defaults, v);
    } else if DetectLine(a, Rewritten(a, content, defaults, v)) == Valid(v) {
      ValidWithinLimits(a, Rewritten(a, content, defaults, v));
    }
  }
}
