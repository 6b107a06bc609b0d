/**
 What the digest of a configuration area is taken over (HashAreaSnapshot in
 src/update/config_migration.cpp): a canonical encoding of its files.
 */
module AreaDigest {
  import opened ConfigText
  import opened ConfigDetect
  import opened LittleEndian
  import opened Ordering
  import opened Sorting

  const MAGIC := "BMX-CFG-AREA-V1\0"

  function AreaCode(a: Area): (n: nat)
    ensures n < 7
  {
    match a
    case UnknownArea => 0
    case Machines => 1
    case ConfigManagedBlock => 2
    case CmdlineManagedKeys => 3
    case Network => 4
    case Settings => 5
    case UpdateState => 6
  }

  /** The k low-order bytes of v, most significant first. */
  function BE(v: nat, k: nat): (s: string)
    ensures |s| == k
  {
    if k == 0 then "" else BE(v / 256, k - 1) + [(v % 256) as char]
  }

  lemma {:induction false} BEInjective(v: nat, w: nat, k: nat)
    requires v < Limit(k) && w < Limit(k) && BE(v, k) == BE(w, k)
    ensures v == w
  {
    if k > 0 {
      var s, t := BE(v, k), BE(w, k);
      assert s[k - 1] == t[k - 1] && s[..k - 1] == BE(v / 256, k - 1) && t[..k - 1] == BE(w / 256, k - 1);
      BEInjective(v / 256, w / 256, k - 1);
    }
  }

  function EncodeFile(f: File): string {
    BE(|f.path|, 2) + f.path + BE(|f.content|, 8) + f.content
  }

  function EncodeFiles(files: seq<File>): string {
    if files == [] then "" else EncodeFile(files[0]) + EncodeFiles(files[1..])
  }

  predicate PathAfter(f: File, g: File) {
    CompareText(f.path, g.path) == Greater
  }

  /** The byte string that is hashed. */
  function Preimage(s: Snapshot): string
    requires |s.files| <= MAX_FILES
  {
    MAGIC + [AreaCode(s.area) as char, |s.files| as char] + EncodeFiles(Ordered(PathAfter, s.files))
  }

  /** What the snapshot validation guarantees of the files that are hashed. */
  predicate Hashable(files: seq<File>) {
    && |files| <= MAX_FILES
    && (forall i :: 0 <= i < |files| ==> |files[i].path| <= MAX_PATH && |files[i].content| <= MAX_FILE)
    && forall i, j :: 0 <= i < j < |files| ==> files[i].path != files[j].path
  }

  predicate Bounded(files: seq<File>) {
    forall f :: f in files ==> |f.path| <= MAX_PATH && |f.content| <= MAX_FILE
  }

  lemma {:induction false} EncodeFilesAppend(a: seq<File>, f: File)
    ensures EncodeFiles(a + [f]) == EncodeFiles(a) + EncodeFile(f)
  {
    hide EncodeFile;
    if a == [] {
      assert a + [f] == [f] && [f][1..] == [];
    } else {
      assert (a + [f])[1..] == a[1..] + [f];
      EncodeFilesAppend(a[1..], f);
    }
  }

  lemma PathOrder()
    ensures StrictOrder(PathAfter)
  {
    forall x: File, y: File, z: File
      ensures PathAfter(x, y) ==> !PathAfter(y, x)
      ensures PathAfter(x, y) && PathAfter(y, z) ==> PathAfter(x, z)
    {
      TextOrder(x.path, y.path);
      TextOrder(y.path, z.path);
      TextOrder(x.path, z.path);
      if PathAfter(x, y) && PathAfter(y, z) {
        TextTransitive(z.path, y.path, x.path);
      }
    }
  }

  lemma HashableIsDistinct(files: seq<File>)
    requires Hashable(files)
    ensures Distinct(PathAfter, files)
  {
    forall i, j | 0 <= i < j < |files|
      ensures PathAfter(files[i], files[j]) || PathAfter(files[j], files[i])
    {
      TextOrder(files[i].path, files[j].path);
    }
  }

  // ---------------------------------------------------------------- injectivity

  /** A field of known length, and what follows it, can be told apart. */
  lemma Peel(a: string, x: string, b: string, y: string)
    requires |a| == |b| && a + x == b + y
    ensures a == b && x == y
  {
    assert (a + x)[..|a|] == a && (b + y)[..|b|] == b;
    assert (a + x)[|a|..] == x && (b + y)[|b|..] == y;
  }

  lemma Associates(p: string, a: string, x: string)
    ensures p + a + x == p + (a + x)
  {
  }

  /** A text behind its length, and what follows it. */
  lemma PeelText(k: nat, a: string, x: string, b: string, y: string)
    requires |a| < Limit(k) && |b| < Limit(k) && BE(|a|, k) + a + x == BE(|b|, k) + b + y
    ensures a == b && x == y
  {
    hide BE, Limit;
    Associates(BE(|a|, k), a, x);
    Associates(BE(|b|, k), b, y);
    Peel(BE(|a|, k), a + x, BE(|b|, k), b + y);
    BEInjective(|a|, |b|, k);
    Peel(a, x, b, y);
  }

  lemma PeelFile(f: File, x: string, g: File, y: string)
    requires |f.path| <= MAX_PATH && |f.content| <= MAX_FILE && |g.path| <= MAX_PATH && |g.content| <= MAX_FILE
    requires EncodeFile(f) + x == EncodeFile(g) + y
    ensures f == g && x == y
  {
    hide BE, Limit;
    Limits();
    var s, t := BE(|f.content|, 8) + f.content + x, BE(|g.content|, 8) + g.content + y;
    assert EncodeFile(f) + x == BE(|f.path|, 2) + f.path + s;
    assert EncodeFile(g) + y == BE(|g.path|, 2) + g.path + t;
    PeelText(2, f.path, s, g.path, t);
    PeelText(8, f.content, x, g.content, y);
  }

  lemma {:induction false} FilesInjective(s: seq<File>, t: seq<File>)
    requires Bounded(s) && Bounded(t) && |s| == |t| && EncodeFiles(s) == EncodeFiles(t)
    ensures s == t
  {
    hide EncodeFile;
    if s != [] {
      assert s[0] in s && t[0] in t;
      PeelFile(s[0], EncodeFiles(s[1..]), t[0], EncodeFiles(t[1..]));
      FilesInjective(s[1..], t[1..]);
      assert s == [s[0]] + s[1..] && t == [t[0]] + t[1..];
    }
  }

  lemma HeadsAgree(a: Snapshot, b: Snapshot)
    requires |a.files| <= MAX_FILES && |b.files| <= MAX_FILES && Preimage(a) == Preimage(b)
    ensures a.area == b.area && |a.files| == |b.files|
    ensures EncodeFiles(Ordered(PathAfter, a.files)) == EncodeFiles(Ordered(PathAfter, b.files))
  {
    hide EncodeFiles;
    var h, k := [AreaCode(a.area) as char, |a.files| as char], [AreaCode(b.area) as char, |b.files| as char];
    Peel(MAGIC + h, EncodeFiles(Ordered(PathAfter, a.files)), MAGIC + k, EncodeFiles(Ordered(PathAfter, b.files)));
    Peel(MAGIC, h, MAGIC, k);
    assert h[0] == k[0] && h[1] == k[1];
  }

  /**
   Canonical: two area snapshots are hashed over the same bytes if and only if they
   are the same area with the same set of (path, content) pairs.
   */
  lemma PreimageIsCanonical(a: Snapshot, b: Snapshot)
    requires Hashable(a.files) && Hashable(b.files)
    ensures Preimage(a) == Preimage(b) <==> a.area == b.area && forall f :: f in a.files <==> f in b.files
  {
    hide EncodeFiles, EncodeFile, Ordered, PathAfter;
    PathOrder();
    HashableIsDistinct(a.files);
    HashableIsDistinct(b.files);
    OrderedSorts(PathAfter, a.files);
    OrderedSorts(PathAfter, b.files);
    OrderedIsCanonical(PathAfter, a.files, b.files);
    if Preimage(a) == Preimage(b) {
      HeadsAgree(a, b);
      FilesInjective(Ordered(PathAfter, a.files), Ordered(PathAfter, b.files));
    }
    if a.area == b.area && Ordered(PathAfter, a.files) == Ordered(PathAfter, b.files) {
      assert |a.files| == |Ordered(PathAfter, a.files)| == |b.files|;
    }
  }

  /** HashAreaSnapshot up to the hash itself: sorts indices by path and feeds the fields in that order. */
  method HashInput(s: Snapshot) returns (fed: string)
    requires |s.files| <= MAX_FILES
    ensures fed == Preimage(s)
  {
    hide EncodeFiles, EncodeFile, Ordered, PathAfter, Pick;
    var n := |s.files|;
    var order := new nat[MAX_FILES];
    for i := 0 to n
      invariant forall k :: 0 <= k < i ==> order[k] == k
    {
      order[i] := i;
    }
    SortIndices(PathAfter, s.files, order);
    ghost var sorted := Pick(s.files, order[..n]);
    fed := MAGIC + [AreaCode(s.area) as char, n as char];
    ghost var head := fed;
    assert sorted[..0] == [];
    NothingEncoded();
    for i := 0 to n
      invariant forall k :: 0 <= k < n ==> order[k] < n && s.files[order[k]] == sorted[k]
      invariant fed == head + EncodeFiles(sorted[..i])
    {
      var file := s.files[order[i]];
      assert file == sorted[i] && sorted[..i + 1] == sorted[..i] + [file];
      EncodeFilesAppend(sorted[..i], file);
      fed := fed + EncodeFile(file);
    }
    assert sorted[..n] == sorted;
  }

  lemma NothingEncoded()
    ensures EncodeFiles([]) == ""
  {
  }

  // ---------------------------------------------------------------- reading the bytes back

  /** The number in a field, most significant byte first. */
  function ReadBE(s: string): nat {
    if s == "" then 0 else 256 * ReadBE(s[..|s| - 1]) + (s[|s| - 1] as nat)
  }

  lemma {:induction false} ReadsBack(v: nat, k: nat)
    requires v < Limit(k)
    ensures ReadBE(BE(v, k)) == v
  {
    if k > 0 {
      var s := BE(v, k);
      assert s[..k - 1] == BE(v / 256, k - 1);
      ReadsBack(v / 256, k - 1);
    }
  }

  datatype Decoded = Decoded(area: Area, files: seq<File>) | Garbage

  /** n files: each a two-byte length and a path, an eight-byte length and a content. */
  function DecodeFiles(n: nat, s: string): Option<seq<File>> {
    if n == 0 then if s == "" then Some([]) else None
    else if |s| < 2 || |s| < 2 + ReadBE(s[..2]) + 8 then None
    else
      var p := ReadBE(s[..2]);
      var c := ReadBE(s[2 + p..10 + p]);
      if |s| < 10 + p + c then None
      else
        var rest := DecodeFiles(n - 1, s[10 + p + c..]);
        if rest.None? then None else Some([File(s[2..2 + p], s[10 + p..10 + p + c])] + rest.value)
  }

  /** The magic, an area number, a file count, and the files. */
  function Decode(s: string): Decoded {
    if |s| < 18 || s[..16] != "BMX-CFG-AREA-V1\0" || s[16] as nat > 6 then Garbage
    else
      var area := match s[16] as nat
                  case 1 => Machines
                  case 2 => ConfigManagedBlock
                  case 3 => CmdlineManagedKeys
                  case 4 => Network
                  case 5 => Settings
                  case 6 => UpdateState
                  case _ => UnknownArea;
      var files := DecodeFiles(s[17] as nat, s[18..]);
      if files.None? then Garbage else Decoded(area, files.value)
  }

  /** Where the fields of an encoded file are. */
  lemma FileFields(f: File, rest: string)
    ensures var s, p, c := EncodeFile(f) + rest, |f.path|, |f.content|;
            && |s| == 10 + p + c + |rest|
            && s[..2] == BE(p, 2) && s[2..2 + p] == f.path && s[2 + p..10 + p] == BE(c, 8)
            && s[10 + p..10 + p + c] == f.content && s[10 + p + c..] == rest
  {
    hide BE;
  }

  lemma {:induction false} FilesReadBack(files: seq<File>)
    requires Bounded(files)
    ensures DecodeFiles(|files|, EncodeFiles(files)) == Some(files)
  {
    hide EncodeFile, BE, ReadBE, Limit;
    if files != [] {
      var f, rest := files[0], EncodeFiles(files[1..]);
      assert f in files;
      FileFields(f, rest);
      Limits();
      ReadsBack(|f.path|, 2);
      ReadsBack(|f.content|, 8);
      FilesReadBack(files[1..]);
      assert [f] + files[1..] == files;
    }
  }

  /** Paths are listed in ascending order of their characters. */
  predicate AscendingPaths(files: seq<File>) {
    forall i, j :: 0 <= i < j < |files| ==> TextLess(files[i].path, files[j].path)
  }

  lemma OrderedAscends(files: seq<File>)
    requires Hashable(files)
    ensures AscendingPaths(Ordered(PathAfter, files)) && Bounded(Ordered(PathAfter, files))
    ensures forall f :: f in Ordered(PathAfter, files) <==> f in files
  {
    PathOrder();
    HashableIsDistinct(files);
    OrderedSorts(PathAfter, files);
    var s := Ordered(PathAfter, files);
    hide Ordered;
    forall i, j | 0 <= i < j < |s|
      ensures TextLess(s[i].path, s[j].path)
    {
      assert PathAfter(s[j], s[i]);
      TextOrder(s[i].path, s[j].path);
      CompareIsLexicographic(s[i].path, s[j].path);
    }
  }

  /**
   A reader that knows the format gets back the area and its files, in ascending order
   of their paths.
   */
  lemma PreimageReadsBack(s: Snapshot)
    requires Hashable(s.files)
    ensures var d := Decode(Preimage(s));
            && d.Decoded? && d.area == s.area && AscendingPaths(d.files)
            && forall f :: f in d.files <==> f in s.files
  {
    hide Ordered, EncodeFiles, DecodeFiles, TextLess, PathAfter;
    OrderedAscends(s.files);
    var sorted := Ordered(PathAfter, s.files);
    FilesReadBack(sorted);
    var bytes := Preimage(s);
    var head := [AreaCode(s.area) as char, |s.files| as char];
    assert |MAGIC| == 16;
    assert bytes[..16] == MAGIC && bytes[16] == head[0] && bytes[17] == head[1] && bytes[18..] == EncodeFiles(sorted);
  }
}
