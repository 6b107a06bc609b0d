/**
 Canonical consent serialization (src/update/consent_digest_input.cpp): whatever
 the order of the items, the same consent has one encoding, and different consents
 have different encodings.
 */
module LittleEndian {
  import opened Bytes

  /** The k low-order bytes of v, least significant first. */
  function LE(v: nat, k: nat): (s: seq<byte>)
    ensures |s| == k
  {
    if k == 0 then [] else [(v % 256) as byte] + LE(v / 256, k - 1)
  }

  function Limit(k: nat): nat {
    if k == 0 then 1 else 256 * Limit(k - 1)
  }

  lemma {:induction false} LEInjective(v: nat, w: nat, k: nat)
    requires v < Limit(k) && w < Limit(k) && LE(v, k) == LE(w, k)
    ensures v == w
  {
    if k > 0 {
      assert LE(v, k)[0] == LE(w, k)[0] && LE(v, k)[1..] == LE(w, k)[1..];
      LEInjective(v / 256, w / 256, k - 1);
    }
  }

  /** The number in a field, least significant byte first. */
  function ReadLE(s: seq<byte>): nat {
    if s == [] then 0 else s[0] as nat + 256 * ReadLE(s[1..])
  }

  lemma {:induction false} LEReadsBack(v: nat, k: nat)
    requires v < Limit(k)
    ensures ReadLE(LE(v, k)) == v
  {
    if k > 0 {
      assert LE(v, k)[1..] == LE(v / 256, k - 1);
      LEReadsBack(v / 256, k - 1);
    }
  }

  lemma Limits()
    ensures Limit(1) == 0x100 && Limit(2) == 0x1_0000 && Limit(4) == 0x1_0000_0000 && Limit(8) == 0x1_0000_0000_0000_0000
  {
    assert Limit(4) == 256 * (256 * Limit(2));
    assert Limit(6) == 256 * (256 * Limit(4));
    assert Limit(8) == 256 * (256 * Limit(6));
  }
}

module Consent {
  import opened Bytes
  import opened LittleEndian
  import opened Sorting

  const MAGIC: seq<byte> := [0x42, 0x4D, 0x58, 0x43, 0x4E, 0x53, 0x31, 0]
  const MAX_ITEMS: nat := 16
  const HEADER_BYTES: nat := 56
  const ITEM_BYTES: nat := 44

  datatype Classification = Compatible | LosslessMigration | ResetRequired | UnknownOrCorrupt | NewerThanTarget | InvalidRule

  function ClassCode(c: Classification): byte {
    match c
    case Compatible => 0
    case LosslessMigration => 1
    case ResetRequired => 2
    case UnknownOrCorrupt => 3
    case NewerThanTarget => 4
    case InvalidRule => 5
  }

  /** Areas 1..6 and boards 1..2 are known; the enumerations are one byte wide. */
  datatype Item = Item(area: byte, classification: Classification, source: nat, target: nat, digest: seq<byte>)
  datatype Input = Input(board: byte, sequence: nat, manifest: seq<byte>, items: seq<Item>)
  datatype Status = Valid | InvalidInput | DuplicateConfigArea | OutputTooSmall
  datatype Option<T> = None | Some(value: T)

  /** The C types' widths: what any caller can pass. */
  predicate Typed(input: Input) {
    && input.sequence < 0x1_0000_0000_0000_0000 && |input.manifest| == 32
    && forall i :: 0 <= i < |input.items| ==>
         input.items[i].source < 0x1_0000_0000 && input.items[i].target < 0x1_0000_0000 && |input.items[i].digest| == 32
  }

  predicate NonZero(s: seq<byte>) {
    exists i :: 0 <= i < |s| && s[i] != 0
  }

  predicate ItemOk(item: Item) {
    && 1 <= item.area <= 6
    && (item.classification.Compatible? || item.classification.LosslessMigration? || item.classification.ResetRequired?)
    && item.target != 0
    && (item.source == 0 ==> item.classification.Compatible?)
    && NonZero(item.digest)
  }

  predicate HeaderOk(input: Input) {
    (input.board == 1 || input.board == 2) && input.sequence != 0 && NonZero(input.manifest) && 0 < |input.items| <= MAX_ITEMS
  }

  predicate DistinctAreas(items: seq<Item>) {
    forall i, j :: 0 <= i < j < |items| ==> items[i].area != items[j].area
  }

  predicate Acceptable(input: Input) {
    HeaderOk(input) && (forall i :: 0 <= i < |input.items| ==> ItemOk(input.items[i])) && DistinctAreas(input.items)
  }

  /** Items are listed by area number. */
  predicate AreaAfter(a: Item, b: Item) {
    a.area > b.area
  }

  // ---------------------------------------------------------------- the encoding

  function EncodeItem(item: Item): (s: seq<byte>)
    ensures |s| == 12 + |item.digest|
  {
    [item.area, ClassCode(item.classification), 0, 0] + LE(item.source, 4) + LE(item.target, 4) + item.digest
  }

  function EncodeItems(items: seq<Item>): seq<byte> {
    if items == [] then [] else EncodeItems(items[..|items| - 1]) + EncodeItem(items[|items| - 1])
  }

  function EncodeHeader(input: Input): (s: seq<byte>)
    requires |input.items| <= MAX_ITEMS
    ensures |s| == 24 + |input.manifest|
  {
    MAGIC + LE(1, 2) + LE(HEADER_BYTES + |input.items| * ITEM_BYTES, 2)
    + [input.board, |input.items| as byte, 0, 0] + LE(input.sequence, 8) + input.manifest
  }

  function Encoding(input: Input): seq<byte>
    requires |input.items| <= MAX_ITEMS
  {
    EncodeHeader(input) + EncodeItems(Ordered(AreaAfter, input.items))
  }

  // ---------------------------------------------------------------- the code

  /** The status of the first item, from i on, that is faulty or repeats an area. */
  function ItemsStatus(items: seq<Item>, i: nat): Status
    requires i <= |items|
    decreases |items| - i
  {
    if i == |items| then Valid
    else if !ItemOk(items[i]) then InvalidInput
    else if exists j :: 0 <= j < i && items[j].area == items[i].area then DuplicateConfigArea
    else ItemsStatus(items, i + 1)
  }

  function StatusOf(input: Input): Status {
    if !HeaderOk(input) then InvalidInput else ItemsStatus(input.items, 0)
  }

  lemma {:induction false} ItemsStatusIsExact(items: seq<Item>, i: nat)
    requires i <= |items|
    ensures ItemsStatus(items, i) == Valid <==>
              (forall k :: i <= k < |items| ==> ItemOk(items[k]))
              && (forall j, k :: 0 <= j < k < |items| && i <= k ==> items[j].area != items[k].area)
    decreases |items| - i
  {
    if i < |items| {
      ItemsStatusIsExact(items, i + 1);
    }
  }

  /** Validation accepts exactly the acceptable inputs. */
  lemma ValidIsAcceptable(input: Input)
    ensures StatusOf(input) == Valid <==> Acceptable(input)
  {
    if HeaderOk(input) {
      ItemsStatusIsExact(input.items, 0);
    }
  }

  /** ValidateAndSort */
  method ValidateAndSort(input: Input, indices: array<nat>) returns (status: Status)
    requires indices.Length == MAX_ITEMS
    modifies indices
    ensures status == StatusOf(input)
    ensures status == Valid ==>
              && |input.items| <= MAX_ITEMS
              && (forall k :: 0 <= k < |input.items| ==> indices[k] < |input.items|)
              && Pick(input.items, indices[..|input.items|]) == Ordered(AreaAfter, input.items)
  {
    var items := input.items;
    if !HeaderOk(input) { return InvalidInput; }
    for i := 0 to |items|
      invariant ItemsStatus(items, 0) == ItemsStatus(items, i)
      invariant forall k :: 0 <= k < i ==> indices[k] == k
    {
      if !ItemOk(items[i]) { return InvalidInput; }
      indices[i] := i;
      for j := 0 to i
        invariant forall j' :: 0 <= j' < j ==> items[j'].area != items[i].area
        invariant forall k :: 0 <= k <= i ==> indices[k] == k
      {
        if items[j].area == items[i].area { return DuplicateConfigArea; }
      }
    }
    SortIndices(AreaAfter, items, indices);
    return Valid;
  }

  // ---------------------------------------------------------------- serialization into the output buffer

  ghost predicate ZeroBetween(a: array<byte>, from: nat, to: nat)
    requires to <= a.Length
    reads a
  {
    forall k :: from <= k < to ==> a[k] == 0
  }

  /** A field written at `offset`; everything before it and after it stays. */
  method Put(a: array<byte>, offset: nat, field: seq<byte>)
    requires offset + |field| <= a.Length
    modifies a
    ensures a[..offset + |field|] == old(a[..offset]) + field
    ensures forall k :: offset + |field| <= k < a.Length ==> a[k] == old(a[k])
  {
    for i := 0 to |field|
      invariant a[..offset + i] == old(a[..offset]) + field[..i]
      invariant forall k :: offset + i <= k < a.Length ==> a[k] == old(a[k])
    {
      ghost var before := a[..];
      a[offset + i] := field[i];
      assert a[..offset + i + 1] == before[..offset + i] + [field[i]];
      assert field[..i + 1] == field[..i] + [field[i]];
    }
  }

  /** A field written after a gap of two zero bytes. */
  lemma GapIsZero(a: seq<byte>, offset: nat)
    requires offset + 2 <= |a| && a[offset] == 0 && a[offset + 1] == 0
    ensures a[..offset + 2] == a[..offset] + [0, 0]
  {
  }

  lemma {:induction false} EncodeItemsLength(items: seq<Item>)
    requires forall i :: 0 <= i < |items| ==> |items[i].digest| == 32
    ensures |EncodeItems(items)| == |items| * ITEM_BYTES
  {
    if items != [] {
      EncodeItemsLength(items[..|items| - 1]);
    }
  }

  /** One item at `offset` of a buffer that is still zero from there on. */
  method PutItem(a: array<byte>, offset: nat, end: nat, item: Item)
    requires |item.digest| == 32 && offset + ITEM_BYTES <= end <= a.Length && ZeroBetween(a, offset, end)
    modifies a
    ensures a[..offset + ITEM_BYTES] == old(a[..offset]) + EncodeItem(item) && ZeroBetween(a, offset + ITEM_BYTES, end)
  {
    ghost var before := a[..offset];
    Put(a, offset, [item.area, ClassCode(item.classification)]);
    GapIsZero(a[..], offset + 2);
    assert a[..offset + 4] == before + [item.area, ClassCode(item.classification), 0, 0];
    Put(a, offset + 4, LE(item.source, 4));
    Put(a, offset + 8, LE(item.target, 4));
    Put(a, offset + 12, item.digest);
    assert a[..offset + ITEM_BYTES] == before + EncodeItem(item);
  }

  /** The fixed header of a buffer that is zero up to `end`. */
  method PutHeader(a: array<byte>, end: nat, input: Input)
    requires Typed(input) && |input.items| <= MAX_ITEMS && HEADER_BYTES <= end <= a.Length && ZeroBetween(a, 0, end)
    modifies a
    ensures a[..HEADER_BYTES] == EncodeHeader(input) && ZeroBetween(a, HEADER_BYTES, end)
  {
    Put(a, 0, MAGIC);
    Put(a, 8, LE(1, 2));
    Put(a, 10, LE(HEADER_BYTES + |input.items| * ITEM_BYTES, 2));
    Put(a, 12, [input.board, |input.items| as byte]);
    GapIsZero(a[..], 14);
    ghost var head := a[..16];
    assert head == MAGIC + LE(1, 2) + LE(HEADER_BYTES + |input.items| * ITEM_BYTES, 2) + [input.board, |input.items| as byte, 0, 0];
    Put(a, 16, LE(input.sequence, 8));
    Put(a, 24, input.manifest);
    assert a[..HEADER_BYTES] == head + LE(input.sequence, 8) + input.manifest;
  }

  method ZeroFill(a: array<byte>, to: nat)
    requires to <= a.Length
    modifies a
    ensures ZeroBetween(a, 0, to)
  {
    for k := 0 to to
      invariant ZeroBetween(a, 0, k)
    {
      a[k] := 0;
    }
  }

  /** The item loop: `sorted` lists the items in the order of the indices. */
  method PutItems(a: array<byte>, sorted: seq<Item>)
    requires forall i :: 0 <= i < |sorted| ==> |sorted[i].digest| == 32
    requires HEADER_BYTES + |sorted| * ITEM_BYTES <= a.Length
    requires ZeroBetween(a, HEADER_BYTES, HEADER_BYTES + |sorted| * ITEM_BYTES)
    modifies a
    ensures a[..HEADER_BYTES + |sorted| * ITEM_BYTES] == old(a[..HEADER_BYTES]) + EncodeItems(sorted)
  {
    hide EncodeItem;
    var end := HEADER_BYTES + |sorted| * ITEM_BYTES;
    var offset := HEADER_BYTES;
    assert sorted[..0] == [];
    for i := 0 to |sorted|
      invariant offset == HEADER_BYTES + i * ITEM_BYTES
      invariant ZeroBetween(a, offset, end)
      invariant a[..offset] == old(a[..HEADER_BYTES]) + EncodeItems(sorted[..i])
    {
      PutItem(a, offset, end, sorted[i]);
      assert sorted[..i + 1][..i] == sorted[..i];
      offset := offset + ITEM_BYTES;
    }
    assert sorted[..|sorted|] == sorted;
  }

  /** SerializeConsentDigestInput into the first bytes of `output`. */
  method Serialize(input: Input, output: array<byte>) returns (status: Status, size: nat)
    requires Typed(input)
    modifies output
    ensures size <= output.Length
    ensures status == Valid <==> StatusOf(input) == Valid && HEADER_BYTES + |input.items| * ITEM_BYTES <= output.Length
    ensures StatusOf(input) != Valid ==> status == StatusOf(input)
    ensures status == Valid ==> |input.items| <= MAX_ITEMS && output[..size] == Encoding(input)
    ensures status != Valid ==> size == 0 && output[..] == old(output[..])
  {
    hide EncodeHeader, EncodeItems, ItemsStatus, Ordered;
    var indices := new nat[MAX_ITEMS];
    status := ValidateAndSort(input, indices);
    if status != Valid { return status, 0; }
    ValidIsAcceptable(input);
    var required := HEADER_BYTES + |input.items| * ITEM_BYTES;
    if output.Length < required { return OutputTooSmall, 0; }
    var sorted := Pick(input.items, indices[..|input.items|]);
    ZeroFill(output, required);
    PutHeader(output, required, input);
    PutItems(output, sorted);
    return Valid, required;
  }

  // ---------------------------------------------------------------- the encoding is canonical and injective

  lemma ItemInjective(a: Item, b: Item)
    requires |a.digest| == |b.digest| == 32 && EncodeItem(a) == EncodeItem(b)
    requires a.source < 0x1_0000_0000 && b.source < 0x1_0000_0000 && a.target < 0x1_0000_0000 && b.target < 0x1_0000_0000
    ensures a == b
  {
    var x, y := EncodeItem(a), EncodeItem(b);
    assert x[0] == a.area && y[0] == b.area && x[1] == ClassCode(a.classification) && y[1] == ClassCode(b.classification);
    assert x[4..8] == LE(a.source, 4) && y[4..8] == LE(b.source, 4);
    assert x[8..12] == LE(a.target, 4) && y[8..12] == LE(b.target, 4);
    assert x[12..] == a.digest && y[12..] == b.digest;
    Limits();
    LEInjective(a.source, b.source, 4);
    LEInjective(a.target, b.target, 4);
  }

  predicate TypedItems(items: seq<Item>) {
    forall i :: 0 <= i < |items| ==>
      items[i].source < 0x1_0000_0000 && items[i].target < 0x1_0000_0000 && |items[i].digest| == 32
  }

  lemma {:induction false} ItemsInjective(s: seq<Item>, t: seq<Item>)
    requires TypedItems(s) && TypedItems(t) && |s| == |t| && EncodeItems(s) == EncodeItems(t)
    ensures s == t
  {
    if s != [] {
      var n := |s| - 1;
      EncodeItemsLength(s[..n]);
      EncodeItemsLength(t[..n]);
      var k := n * ITEM_BYTES;
      assert EncodeItems(s)[..k] == EncodeItems(s[..n]) && EncodeItems(t)[..k] == EncodeItems(t[..n]);
      assert EncodeItems(s)[k..] == EncodeItem(s[n]) && EncodeItems(t)[k..] == EncodeItem(t[n]);
      ItemsInjective(s[..n], t[..n]);
      ItemInjective(s[n], t[n]);
    }
  }

  lemma HeaderInjective(a: Input, b: Input)
    requires Typed(a) && Typed(b) && |a.items| <= MAX_ITEMS && |b.items| <= MAX_ITEMS
    requires EncodeHeader(a) == EncodeHeader(b)
    ensures a.board == b.board && a.sequence == b.sequence && a.manifest == b.manifest && |a.items| == |b.items|
  {
    var x, y := EncodeHeader(a), EncodeHeader(b);
    assert x[12] == a.board && y[12] == b.board && x[13] == |a.items| as byte && y[13] == |b.items| as byte;
    assert x[16..24] == LE(a.sequence, 8) && y[16..24] == LE(b.sequence, 8);
    assert x[24..56] == a.manifest && y[24..56] == b.manifest;
    Limits();
    LEInjective(a.sequence, b.sequence, 8);
  }

  lemma AreaOrder()
    ensures StrictOrder(AreaAfter)
  {
  }

  /** The same consent: order of the items apart, everything agrees. */
  ghost predicate SameConsent(a: Input, b: Input) {
    a.board == b.board && a.sequence == b.sequence && a.manifest == b.manifest && forall x :: x in a.items <==> x in b.items
  }

  lemma AcceptableIsDistinct(a: Input)
    requires Acceptable(a)
    ensures Distinct(AreaAfter, a.items) && |a.items| <= MAX_ITEMS
  {
  }

  lemma EqualEncodings(a: Input, b: Input)
    requires Typed(a) && Typed(b) && Acceptable(a) && Acceptable(b) && Encoding(a) == Encoding(b)
    ensures a.board == b.board && a.sequence == b.sequence && a.manifest == b.manifest
    ensures Ordered(AreaAfter, a.items) == Ordered(AreaAfter, b.items)
  {
    hide EncodeItem, EncodeItems, EncodeHeader, Ordered;
    OrderedTyped(a.items);
    OrderedTyped(b.items);
    assert Encoding(a)[..HEADER_BYTES] == EncodeHeader(a) && Encoding(b)[..HEADER_BYTES] == EncodeHeader(b);
    HeaderInjective(a, b);
    assert Encoding(a)[HEADER_BYTES..] == EncodeItems(Ordered(AreaAfter, a.items));
    assert Encoding(b)[HEADER_BYTES..] == EncodeItems(Ordered(AreaAfter, b.items));
    ItemsInjective(Ordered(AreaAfter, a.items), Ordered(AreaAfter, b.items));
  }

  /** Canonical and injective: equal encodings exactly for the same consent. */
  lemma EncodingIsCanonical(a: Input, b: Input)
    requires Typed(a) && Typed(b) && Acceptable(a) && Acceptable(b)
    ensures Encoding(a) == Encoding(b) <==> SameConsent(a, b)
  {
    hide EncodeItem, EncodeItems, Ordered, AreaAfter, Acceptable, Typed;
    AreaOrder();
    AcceptableIsDistinct(a);
    AcceptableIsDistinct(b);
    OrderedIsCanonical(AreaAfter, a.items, b.items);
    if Encoding(a) == Encoding(b) {
      EqualEncodings(a, b);
    }
    if SameConsent(a, b) {
      assert |a.items| == |Ordered(AreaAfter, a.items)| == |b.items|;
    }
  }

  lemma OrderedTyped(items: seq<Item>)
    requires TypedItems(items) && DistinctAreas(items)
    ensures TypedItems(Ordered(AreaAfter, items))
  {
    AreaOrder();
    OrderedSorts(AreaAfter, items);
    var s := Ordered(AreaAfter, items);
    forall i | 0 <= i < |s|
      ensures s[i].source < 0x1_0000_0000 && s[i].target < 0x1_0000_0000 && |s[i].digest| == 32
    {
      assert s[i] in items;
    }
  }

  /** ConsentDigestInputsEqual: true exactly for two acceptable inputs with the same consent. */
  method InputsEqual(a: Input, b: Input) returns (equal: bool)
    requires Typed(a) && Typed(b)
    ensures equal <==> Acceptable(a) && Acceptable(b) && SameConsent(a, b)
  {
    hide Encoding, ItemsStatus;
    var left := new byte[HEADER_BYTES + MAX_ITEMS * ITEM_BYTES];
    var right := new byte[HEADER_BYTES + MAX_ITEMS * ITEM_BYTES];
    ValidIsAcceptable(a);
    ValidIsAcceptable(b);
    var leftStatus, leftSize := Serialize(a, left);
    var rightStatus, rightSize := Serialize(b, right);
    if leftStatus != Valid || rightStatus != Valid { return false; }
    EncodingIsCanonical(a, b);
    if leftSize != rightSize { return false; }
    return left[..leftSize] == right[..rightSize];
  }

  // ---------------------------------------------------------------- reading the bytes back

  function ClassOf(code: byte): Classification {
    if code == 0 then Compatible
    else if code == 1 then LosslessMigration
    else if code == 2 then ResetRequired
    else if code == 3 then UnknownOrCorrupt
    else if code == 4 then NewerThanTarget
    else InvalidRule
  }

  /** An item as a reader of the format finds it: area, class, two zeros, source, target, digest. */
  function ReadItem(s: seq<byte>): Item
    requires |s| == ITEM_BYTES
  {
    Item(s[0], ClassOf(s[1]), ReadLE(s[4..8]), ReadLE(s[8..12]), s[12..44])
  }

  function ReadItems(s: seq<byte>): seq<Item>
    requires |s| % ITEM_BYTES == 0
  {
    if s == [] then [] else ReadItems(s[..|s| - ITEM_BYTES]) + [ReadItem(s[|s| - ITEM_BYTES..])]
  }

  /** BMXCNS1, version 1, the total size, board, count, sequence number, manifest digest, items. */
  function ReadBack(s: seq<byte>): (r: Option<Input>) {
    if |s| < HEADER_BYTES || (|s| - HEADER_BYTES) % ITEM_BYTES != 0 then None
    else if s[..8] != [0x42, 0x4D, 0x58, 0x43, 0x4E, 0x53, 0x31, 0] || ReadLE(s[8..10]) != 1 || ReadLE(s[10..12]) != |s| then None
    else if s[13] as nat * ITEM_BYTES != |s| - HEADER_BYTES || s[14] != 0 || s[15] != 0 then None
    else Some(Input(s[12], ReadLE(s[16..24]), s[24..56], ReadItems(s[56..])))
  }

  lemma ItemReadsBack(item: Item)
    requires |item.digest| == 32 && item.source < 0x1_0000_0000 && item.target < 0x1_0000_0000
    ensures |EncodeItem(item)| == ITEM_BYTES && ReadItem(EncodeItem(item)) == item
    ensures EncodeItem(item)[2] == EncodeItem(item)[3] == 0
  {
    var s := EncodeItem(item);
    assert s[0] == item.area && s[1] == ClassCode(item.classification);
    assert s[4..8] == LE(item.source, 4) && s[8..12] == LE(item.target, 4) && s[12..44] == item.digest;
    hide LE, ReadLE, Limit;
    Limits();
    LEReadsBack(item.source, 4);
    LEReadsBack(item.target, 4);
  }

  lemma {:induction false} ItemsReadBack(items: seq<Item>)
    requires TypedItems(items)
    ensures |EncodeItems(items)| == |items| * ITEM_BYTES && ReadItems(EncodeItems(items)) == items
  {
    hide EncodeItem, ReadItem;
    EncodeItemsLength(items);
    if items != [] {
      var n := |items| - 1;
      var front, last := EncodeItems(items[..n]), EncodeItem(items[n]);
      ItemReadsBack(items[n]);
      ItemsReadBack(items[..n]);
      var s := EncodeItems(items);
      assert s[..|s| - ITEM_BYTES] == front && s[|s| - ITEM_BYTES..] == last;
      assert items[..n] + [items[n]] == items;
    }
  }

  /** Items are listed by ascending area number. */
  predicate AscendingAreas(items: seq<Item>) {
    forall i, j :: 0 <= i < j < |items| ==> items[i].area < items[j].area
  }

  /** A reader that knows the format gets back the consent, its items in the order of their areas. */
  lemma EncodingReadsBack(input: Input)
    requires Typed(input) && Acceptable(input)
    ensures var r := ReadBack(Encoding(input));
            r.Some? && AscendingAreas(r.value.items) && SameConsent(r.value, input)
  {
    hide Ordered, EncodeItem, EncodeItems, EncodeHeader, ReadItems, ReadBack, Acceptable, AscendingAreas;
    SortedItems(input);
    var sorted := Ordered(AreaAfter, input.items);
    ItemsReadBack(sorted);
    HeaderReadsBack(input, EncodeItems(sorted));
  }

  lemma SortedItems(input: Input)
    requires Typed(input) && Acceptable(input)
    ensures var sorted := Ordered(AreaAfter, input.items);
            && |input.items| <= MAX_ITEMS && |sorted| == |input.items| && TypedItems(sorted) && AscendingAreas(sorted)
            && forall x :: x in sorted <==> x in input.items
  {
    hide ItemOk, HeaderOk, Ordered;
    AreaOrder();
    AcceptableIsDistinct(input);
    OrderedSorts(AreaAfter, input.items);
    OrderedTyped(input.items);
  }

  lemma HeaderReadsBack(input: Input, items: seq<byte>)
    requires Typed(input) && |input.items| <= MAX_ITEMS && |items| == |input.items| * ITEM_BYTES
    ensures ReadBack(EncodeHeader(input) + items) == Some(Input(input.board, input.sequence, input.manifest, ReadItems(items)))
  {
    HeaderFields(input, items);
    hide ReadItems, EncodeHeader, ReadLE, LE, Limit;
    FieldsReadBack(input);
    assert MAGIC == [0x42, 0x4D, 0x58, 0x43, 0x4E, 0x53, 0x31, 0];
  }

  lemma FieldsReadBack(input: Input)
    requires Typed(input) && |input.items| <= MAX_ITEMS
    ensures ReadLE(LE(1, 2)) == 1 && ReadLE(LE(input.sequence, 8)) == input.sequence
    ensures var size := HEADER_BYTES + |input.items| * ITEM_BYTES; ReadLE(LE(size, 2)) == size
  {
    hide ReadLE, LE, Limit;
    Limits();
    LEReadsBack(1, 2);
    LEReadsBack(HEADER_BYTES + |input.items| * ITEM_BYTES, 2);
    LEReadsBack(input.sequence, 8);
  }

  /** Where the fields of the header are. */
  lemma HeaderFields(input: Input, items: seq<byte>)
    requires Typed(input) && |input.items| <= MAX_ITEMS
    ensures var s := EncodeHeader(input) + items;
            && |s| == HEADER_BYTES + |items| && s[..8] == MAGIC
            && s[8..10] == LE(1, 2) && s[10..12] == LE(HEADER_BYTES + |input.items| * ITEM_BYTES, 2)
            && s[12] == input.board && s[13] as nat == |input.items| && s[14] == 0 && s[15] == 0
            && s[16..24] == LE(input.sequence, 8) && s[24..56] == input.manifest && s[56..] == items
  {
    hide LE;
  }
}
