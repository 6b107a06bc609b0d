/**
 Pi 5 scan-out (src/pi5kms/pi5_kms.cpp): the PLL divider search and the linked
 display list. Where the source combines bit fields with `|`, the fields do not
 overlap and the model adds them.
 */
module PllDivider {
  const VCO_MIN: nat := 8_000_000_000
  const VCO_MAX: nat := 12_000_000_000
  const OSCILLATOR: nat := 54_000_000

  function Vco(rate: nat, div: nat): nat {
    rate * div * 10
  }

  lemma VcoStep(rate: nat, div: nat)
    ensures Vco(rate, div + 1) == Vco(rate, div) + 10 * rate
  {
  }

  lemma {:induction false} VcoMonotone(rate: nat, a: nat, b: nat)
    requires a <= b
    ensures Vco(rate, a) <= Vco(rate, b)
    decreases b - a
  {
    if a < b {
      VcoStep(rate, a);
      VcoMonotone(rate, a + 1, b);
    }
  }

  /** The pixel rates for which some divider puts the VCO in range. */
  predicate Tunable(rate: nat) {
    rate < 600_000_000 || 800_000_000 <= rate < 1_200_000_000
  }

  /** The least divider with Vco >= VCO_MIN decides whether any divider is below VCO_MAX. */
  lemma LeastDividerDecides(rate: nat, least: nat)
    requires 0 < rate && 0 < least && Vco(rate, least - 1) < VCO_MIN <= Vco(rate, least)
    ensures Vco(rate, least) < VCO_MAX <==> Tunable(rate)
  {
    VcoStep(rate, least - 1);
    if 400_000_000 < rate {
      VcoStep(rate, 0);
      VcoStep(rate, 1);
      if least > 2 {
        VcoMonotone(rate, 2, least - 1);
      }
    }
  }

  /** Halfway, rounded down, between the least divider that reaches the range and the last that stays below it. */
  predicate Between(rate: nat, least: nat, last: nat, div: nat) {
    && 0 < least <= last && div == least + (last - least) / 2
    && Vco(rate, least - 1) < VCO_MIN <= Vco(rate, least)
    && (last > least ==> Vco(rate, last) < VCO_MAX) && Vco(rate, last + 1) >= VCO_MAX
  }

  ghost predicate Midpoint(rate: nat, div: nat) {
    exists least, last :: Between(rate, least, last, div)
  }

  /**
   GetVcoFreq: both searches stop, nothing overflows, and the midpoint divider
   puts the VCO in range exactly for the tunable rates.
   */
  method GetVcoFreq(rate: nat) returns (vco: nat, div: nat)
    requires 0 < rate < 0x1_0000_0000
    ensures vco == Vco(rate, div) && vco >= VCO_MIN && 0 < div <= VCO_MAX / 10
    ensures Midpoint(rate, div)
    ensures vco < VCO_MAX <==> Tunable(rate)
    ensures vco < 0x1_0000_0000_0000_0000
  {
    div := 0;
    while Vco(rate, div) < VCO_MIN
      invariant div > 0 ==> Vco(rate, div - 1) < VCO_MIN
      invariant div <= VCO_MIN / 10
      decreases VCO_MIN - Vco(rate, div)
    {
      VcoStep(rate, div);
      DividerBound(rate, div, VCO_MIN);
      div := div + 1;
    }
    var minDiv := div;
    LeastDividerDecides(rate, minDiv);
    VcoStep(rate, minDiv - 1);
    while Vco(rate, div + 1) < VCO_MAX
      invariant minDiv <= div <= VCO_MAX / 10
      invariant div > minDiv ==> Vco(rate, div) < VCO_MAX
      decreases VCO_MAX - Vco(rate, div + 1)
    {
      VcoStep(rate, div + 1);
      DividerBound(rate, div + 1, VCO_MAX);
      div := div + 1;
    }
    var maxDiv := div;
    div := minDiv + (maxDiv - minDiv) / 2;
    VcoMonotone(rate, minDiv, div);
    VcoMonotone(rate, div, maxDiv);
    vco := Vco(rate, div);
    assert Between(rate, minDiv, maxDiv, div);
  }

  /** At rate zero the first search never reaches its bound, so the code does not return. */
  lemma ZeroRateNeverReaches(div: nat)
    ensures Vco(0, div) < VCO_MIN
  {
  }

  lemma DividerBound(rate: nat, div: nat, limit: nat)
    requires 0 < rate && Vco(rate, div) < limit
    ensures 10 * div < limit
  {
    assert rate * div >= div;
  }

  /** GetRmOffset */
  function RmOffset(vco: nat): nat {
    vco * 2 * 0x40_0000 / OSCILLATOR / 4
  }

  /** The offset is the ratio of the VCO to the oscillator with 21 fraction bits, rounded down. */
  lemma RmOffsetIsRatio(vco: nat)
    ensures RmOffset(vco) * OSCILLATOR <= vco * 0x20_0000 < (RmOffset(vco) + 1) * OSCILLATOR
  {
    var q := vco * 2 * 0x40_0000 / OSCILLATOR;
    assert q * OSCILLATOR <= vco * 2 * 0x40_0000 < (q + 1) * OSCILLATOR;
    assert 4 * (q / 4) <= q < 4 * (q / 4) + 4;
  }

  /** For every rate up to 400 MHz the offset leaves bit 31 free and no product passes 64 bits. */
  lemma RmOffsetFits(vco: nat)
    requires VCO_MIN <= vco < VCO_MAX
    ensures vco * 2 * 0x40_0000 < 0x1_0000_0000_0000_0000 && RmOffset(vco) < 0x8000_0000
  {
  }
}

module DisplayList {
  const U32: nat := 0x1_0000_0000
  type Word = w: nat | w < 0x1_0000_0000

  const CTL0_END: Word := 0x8000_0000
  const CTL0_VALID: Word := 0x4000_0000
  const CTL0_UNITY: Word := 0x8000
  const CONTEXT: Word := 0xC0C0_C0C0
  const MITCHELL_SLOT: nat := 16
  const NEAREST_SLOT: nat := 32
  const KERNEL_WORDS: nat := 11
  const SLOT0: nat := 64
  const SLOT1: nat := 224
  const CAPACITY: nat := 160
  const ROOM: nat := 32

  datatype Format = Rgb565 | Argb8888 | OtherFormat
  datatype Filter = Nearest | Mitchell | OtherFilter
  datatype Rect = Rect(x: int, y: int, width: nat, height: nat)
  datatype Plane = Plane(address: nat, pitch: nat, width: nat, height: nat, depth: nat,
                         format: Format, filter: Filter, source: Rect, destination: Rect)
  datatype Scaling = Unscaled | Ppf | Tpz

  predicate ValidRect(r: Rect) {
    0 < r.width <= 0x1FFF && 0 < r.height <= 0x1FFF && 0 <= r.x <= 0x1FFF && 0 <= r.y <= 0x1FFF
  }

  /** ValidatePlane */
  predicate ValidPlane(p: Plane, displayWidth: nat, displayHeight: nat) {
    && p.address != 0 && p.address < U32
    && 0 < p.pitch <= 0x1_FFFF && 0 < p.width <= 0x1FFF && 0 < p.height <= 0x1FFF
    && 0 < displayWidth <= 0x1FFF && 0 < displayHeight <= 0x1FFF
    && ((p.format.Rgb565? && p.depth == 16) || (p.format.Argb8888? && p.depth == 32))
    && !p.filter.OtherFilter?
    && ValidRect(p.source) && ValidRect(p.destination)
    && p.source.x + p.source.width <= p.width && p.source.y + p.source.height <= p.height
    && p.destination.x + p.destination.width <= displayWidth && p.destination.y + p.destination.height <= displayHeight
  }

  /** What the word builders rely on. */
  predicate Drawable(p: Plane) {
    ValidRect(p.source) && ValidRect(p.destination) && p.address < U32 && p.pitch <= 0x1_FFFF && !p.format.OtherFormat?
  }

  predicate Unity(p: Plane) {
    p.source.width == p.destination.width && p.source.height == p.destination.height
  }

  function ScalingOf(src: nat, dst: nat): Scaling {
    if src == dst then Unscaled else if 3 * dst >= 2 * src then Ppf else Tpz
  }

  function SclField(x: Scaling, y: Scaling): (f: nat)
    ensures f <= 7
  {
    match (x, y)
    case (Ppf, Ppf) => 0
    case (Tpz, Ppf) => 1
    case (Ppf, Tpz) => 2
    case (Tpz, Tpz) => 3
    case (Ppf, Unscaled) => 4
    case (Unscaled, Ppf) => 5
    case (Unscaled, Tpz) => 6
    case (Tpz, Unscaled) => 7
    case (Unscaled, Unscaled) => 0
  }

  /** MakeHvsPlaneCtl0 for a supported format. */
  function Ctl0(next: nat, unity: bool, format: Format, scl: nat): Word
    requires scl <= 7 && !format.OtherFormat?
  {
    CTL0_VALID + (next % 64) * 0x100_0000
    + (if format.Rgb565? then 3 else 0) * 0x4_0000
    + (if unity then CTL0_UNITY else 0)
    + 2 * 0x2000 + scl * 0x100 + scl * 0x20
    + (if format.Rgb565? then 4 else 7)
  }

  /** What the scaler hardware reads from a control word. */
  function NextOf(w: Word): nat { w / 0x100_0000 % 64 }
  predicate IsEnd(w: Word) { w >= CTL0_END }
  predicate IsValidWord(w: Word) { w / CTL0_VALID % 2 == 1 }

  lemma Ctl0Fields(next: nat, unity: bool, format: Format, scl: nat)
    requires scl <= 7 && !format.OtherFormat? && next <= 63
    ensures var w := Ctl0(next, unity, format, scl); NextOf(w) == next && !IsEnd(w) && IsValidWord(w)
  {
  }

  function Low32(n: int): Word { n % U32 }

  function Pos(high: nat, low: nat): Word
    requires high <= 0x1FFF && low <= 0x1FFF
  {
    high * 0x1_0000 + low
  }

  function Ptr0(slot: nat): Word {
    Low32(slot * 256 * 0x1_0000) + (slot % 32) * 0x400
  }

  function PpfWord(src: nat, dst: nat, nearest: bool): Word
    requires src <= 0x1FFF && 0 < dst
  {
    (if nearest then 0x8000_0000 else 0) + 0x4000_0000 + (PpfScale(src, dst) % 0x2_0000) * 0x100 + PpfPhase(src, dst)
  }

  function PpfScale(src: nat, dst: nat): nat
    requires 0 < dst
  {
    src * 0x1_0000 / dst / 2 * 2
  }

  function PpfPhase(src: nat, dst: nat): (phase: nat)
    requires 0 < dst
    ensures phase < 64
  {
    var phase := -32 + ((src * 0x1_0000 - dst * PpfScale(src, dst)) / 0x400) / 2;
    if phase >= 64 then 63 else phase % 64
  }

  function TpzWord0(src: nat, dst: nat): Word
    requires 0 < dst
  {
    (if dst < src then src * 0x1_0000 / dst else 0x1_0001) % 0x20_0000 * 0x100
  }

  function TpzWord1(src: nat, dst: nat): Word
    requires 0 < dst
  {
    if dst < src then
      assert src * 0x1_0000 / dst >= 1;
      0xFFFF_FFFF / (src * 0x1_0000 / dst) % 0x1_0000
    else 0xFFFF
  }

  /** The scaler parameters, grouped by scaler type as BuildHvsScalingParameterOrder lists them. */
  function Parameters(p: Plane): (s: seq<Word>)
    requires Drawable(p)
    ensures |s| <= 5
  {
    var x, y := ScalingOf(p.source.width, p.destination.width), ScalingOf(p.source.height, p.destination.height);
    var nearest := p.filter.Nearest?;
    (if x.Ppf? then [PpfWord(p.source.width, p.destination.width, nearest)] else [])
    + (if y.Ppf? then [PpfWord(p.source.height, p.destination.height, nearest), CONTEXT] else [])
    + (if x.Tpz? then [TpzWord0(p.source.width, p.destination.width), TpzWord1(p.source.width, p.destination.width)] else [])
    + (if y.Tpz? then [TpzWord0(p.source.height, p.destination.height), TpzWord1(p.source.height, p.destination.height), CONTEXT] else [])
  }

  /** Position, alpha, sizes, pointer and pitch. */
  function Geometry(p: Plane, slot: nat): (s: seq<Word>)
    requires Drawable(p)
    ensures |s| == if Unity(p) then 7 else 8
  {
    var address := Low32(p.address + p.source.y * p.pitch + p.source.x * (p.depth / 8));
    [Pos(p.destination.y, p.destination.x), 0xFFF0]
    + (if Unity(p) then [] else [Pos(p.destination.height - 1, p.destination.width - 1)])
    + [Pos(p.source.height - 1, p.source.width - 1), CONTEXT, Ptr0(slot), address, p.pitch]
  }

  /** Line buffer, parameters and filter kernels of a scaled plane. */
  function ScalerWords(p: Plane, slot: nat): (s: seq<Word>)
    requires Drawable(p) && !Unity(p)
    ensures |s| <= 9
  {
    var x, y := ScalingOf(p.source.width, p.destination.width), ScalingOf(p.source.height, p.destination.height);
    var kernel: Word := if p.filter.Nearest? then NEAREST_SLOT else MITCHELL_SLOT;
    (if y.Unscaled? then [] else [Low32(slot * 256)]) + Parameters(p)
    + (if x.Ppf? || y.Ppf? then [kernel, kernel, kernel, kernel] else [])
  }

  /** Everything of a plane's entry between its control word and its END. */
  function Body(p: Plane, slot: nat): (s: seq<Word>)
    requires Drawable(p)
    ensures 7 <= |s| <= 17
  {
    Geometry(p, slot) + if Unity(p) then [] else ScalerWords(p, slot)
  }

  /** One plane's entry: a control word whose NEXT skips the whole entry. */
  function Entry(p: Plane, slot: nat): (s: seq<Word>)
    requires Drawable(p)
    ensures 9 <= |s| <= 19
    ensures NextOf(s[0]) == |s| && !IsEnd(s[0]) && IsValidWord(s[0]) && s[|s| - 1] == CTL0_END
  {
    var scl := if Unity(p) then 0
               else SclField(ScalingOf(p.source.width, p.destination.width), ScalingOf(p.source.height, p.destination.height));
    var body := Body(p, slot);
    Ctl0Fields(|body| + 2, Unity(p), p.format, scl);
    [Ctl0(|body| + 2, Unity(p), p.format, scl)] + body + [CTL0_END]
  }

  // ---------------------------------------------------------------- reading an entry back

  function High(w: Word): nat { w / 0x1_0000 }
  function Low(w: Word): nat { w % 0x1_0000 }

  /** A field above `low` more bits. */
  lemma FieldAbove(high: nat, low: nat, base: nat)
    requires low < base
    ensures (high * base + low) / base == high && (high * base + low) % base == low
  {
    assert (high * base + low) / base == high by {
      RoundedDown(high * base + low, base);
      var q := (high * base + low) / base;
      if q < high {
        ProductMonotone(base, q + 1, high);
      } else if q > high {
        ProductMonotone(base, high + 1, q);
      }
    }
  }

  /** The control word says how the plane is drawn: format, order, alpha and scaling. */
  lemma ControlShowsPlane(next: nat, unity: bool, format: Format, scl: nat)
    requires scl <= 7 && !format.OtherFormat? && next <= 63
    ensures var w := Ctl0(next, unity, format, scl);
            && (w / 0x8000 % 2 == 1 <==> unity) && w % 0x20 == (if format.Rgb565? then 4 else 7)
            && w / 0x100 % 8 == scl && w / 0x20 % 8 == scl && w / 0x2000 % 4 == 2
            && w / 0x4_0000 % 4 == (if format.Rgb565? then 3 else 0) && w / 0x10_0000 % 4 == 0
  {
    var f, alpha := if format.Rgb565? then 4 else 7, if format.Rgb565? then 3 else 0;
    ControlFields(next, if unity then 1 else 0, alpha, scl, f);
  }

  lemma ControlFields(next: nat, u: nat, alpha: nat, scl: nat, f: nat)
    requires next <= 63 && u <= 1 && alpha <= 3 && scl <= 7 && f < 0x20
    ensures var w := 0x4000_0000 + next * 0x100_0000 + alpha * 0x4_0000 + u * 0x8000 + 2 * 0x2000 + scl * 0x100 + scl * 0x20 + f;
            && w % 0x20 == f && w / 0x20 % 8 == scl && w / 0x100 % 8 == scl && w / 0x2000 % 4 == 2 && w / 0x8000 % 2 == u
            && w / 0x4_0000 % 4 == alpha && w / 0x10_0000 % 4 == 0
  {
    var w := 0x4000_0000 + next * 0x100_0000 + alpha * 0x4_0000 + u * 0x8000 + 2 * 0x2000 + scl * 0x100 + scl * 0x20 + f;
    var e := (0x40 + next) * 0x10;
    var d := e * 4 + alpha;
    var h := d * 8 + u;
    var c := h * 4 + 2;
    var b := c * 0x20 + scl;
    var a := b * 8 + scl;
    FieldAbove(a, f, 0x20);
    FieldAbove(b, scl, 8);
    FieldAbove(b, scl * 0x20 + f, 0x100);
    FieldAbove(c * 4, scl, 8);
    FieldAbove(c, scl * 0x100 + scl * 0x20 + f, 0x2000);
    FieldAbove(h, 2, 4);
    FieldAbove(h, 0x4000 + scl * 0x100 + scl * 0x20 + f, 0x8000);
    FieldAbove(d * 4, u, 2);
    FieldAbove(d, u * 0x8000 + 0x4000 + scl * 0x100 + scl * 0x20 + f, 0x4_0000);
    FieldAbove(e, alpha, 4);
    FieldAbove(e, alpha * 0x4_0000 + u * 0x8000 + 0x4000 + scl * 0x100 + scl * 0x20 + f, 0x10_0000);
    FieldAbove((0x40 + next) * 4, 0, 4);
  }

  /** Reading an entry back: where the plane goes, what it shows, and where its pixels are. */
  lemma EntryShowsPlane(p: Plane, slot: nat)
    requires Drawable(p)
    ensures var e, o := Entry(p, slot), if Unity(p) then 3 else 4;
            && Low(e[1]) == p.destination.x && High(e[1]) == p.destination.y && e[2] == 0xFFF0
            && (!Unity(p) ==> Low(e[3]) + 1 == p.destination.width && High(e[3]) + 1 == p.destination.height)
            && Low(e[o]) + 1 == p.source.width && High(e[o]) + 1 == p.source.height
            && e[o + 1] == 0xC0C0_C0C0
            && e[o + 3] == (p.address + p.source.y * p.pitch + p.source.x * (p.depth / 8)) % 0x1_0000_0000
            && e[o + 4] == p.pitch
  {
    hide ScalerWords, Ctl0, Ptr0;
    var e := Entry(p, slot);
    var g := Geometry(p, slot);
    assert forall i :: 0 <= i < |g| ==> e[i + 1] == g[i];
    PosReads(p.destination.y, p.destination.x);
    PosReads(p.source.height - 1, p.source.width - 1);
    PosReads(p.destination.height - 1, p.destination.width - 1);
    hide Pos, High, Low;
  }

  lemma PosReads(high: nat, low: nat)
    requires high <= 0x1FFF && low <= 0x1FFF
    ensures High(Pos(high, low)) == high && Low(Pos(high, low)) == low
  {
  }

  /** Each way of scaling has its own code. */
  lemma ScalingsDiffer(x: Scaling, y: Scaling, x': Scaling, y': Scaling)
    requires SclField(x, y) == SclField(x', y') && !(x.Unscaled? && y.Unscaled?) && !(x'.Unscaled? && y'.Unscaled?)
    ensures x == x' && y == y'
  {
  }

  lemma RoundedDown(n: nat, d: nat)
    requires 0 < d
    ensures d * (n / d) <= n < d * (n / d + 1)
  {
  }

  lemma ProductMonotone(d: nat, a: nat, b: nat)
    requires a <= b
    ensures d * a <= d * b
  {
  }

  /** An even number just below the ratio. */
  lemma PpfScaleIsRatio(src: nat, dst: nat)
    requires 0 < dst && 3 * dst >= 2 * src
    ensures PpfScale(src, dst) % 2 == 0 && PpfScale(src, dst) < 0x2_0000
    ensures dst * PpfScale(src, dst) <= src * 0x1_0000 < dst * (PpfScale(src, dst) + 2)
  {
    var ratio := src * 0x1_0000 / dst;
    RoundedDown(src * 0x1_0000, dst);
    var scale := ratio / 2 * 2;
    assert scale % 2 == 0 && scale <= ratio < scale + 2;
    ProductMonotone(dst, scale, ratio);
    ProductMonotone(dst, ratio + 1, scale + 2);
    RatioAtMost(src, dst, ratio);
  }

  lemma RatioAtMost(src: nat, dst: nat, ratio: nat)
    requires 0 < dst && 3 * dst >= 2 * src && dst * ratio <= src * 0x1_0000
    ensures ratio <= 0x1_8000
  {
    if ratio > 0x1_8000 {
      ProductMonotone(dst, 0x1_8001, ratio);
    }
  }

  /** The step a polyphase word carries: the even 16.16 ratio just below source over destination. */
  lemma PpfCarriesRatio(src: nat, dst: nat, nearest: bool)
    requires src <= 0x1FFF && 0 < dst && ScalingOf(src, dst).Ppf?
    ensures var step := PpfWord(src, dst, nearest) / 0x100 % 0x2_0000;
            step % 2 == 0 && dst * step <= src * 0x1_0000 < dst * (step + 2)
    ensures PpfWord(src, dst, nearest) / 0x4000_0000 % 2 == 1
    ensures PpfWord(src, dst, nearest) >= 0x8000_0000 <==> nearest
  {
    PpfScaleIsRatio(src, dst);
    hide PpfScale, PpfPhase;
    FieldReads(PpfScale(src, dst), PpfPhase(src, dst), nearest);
  }

  lemma FieldReads(scale: nat, low: nat, nearest: bool)
    requires scale < 0x2_0000 && low < 64
    ensures var w := (if nearest then 0x8000_0000 else 0) + 0x4000_0000 + (scale % 0x2_0000) * 0x100 + low;
            w / 0x100 % 0x2_0000 == scale && w / 0x4000_0000 % 2 == 1 && (w >= 0x8000_0000 <==> nearest)
  {
  }

  /**
   The trapezoid words carry the ratio, rounded down, and its reciprocal; the ratio
   exactly when the source is less than 32 times the destination, since the field has
   21 bits.
   */
  lemma TpzCarriesRatio(src: nat, dst: nat)
    requires src <= 0x1FFF && 0 < dst && ScalingOf(src, dst).Tpz?
    ensures src * 0x1_0000 / dst > 0
    ensures var ratio := src * 0x1_0000 / dst;
            && (TpzWord0(src, dst) / 0x100 == ratio <==> src < 32 * dst)
            && TpzWord0(src, dst) / 0x100 == ratio % 0x20_0000
            && TpzWord1(src, dst) == 0xFFFF_FFFF / ratio
  {
    RoundedDown(src * 0x1_0000, dst);
    TpzWordsAre(src, dst);
    TpzRatioFacts(src, dst, src * 0x1_0000 / dst);
    hide TpzWord0, TpzWord1;
  }

  lemma TpzWordsAre(src: nat, dst: nat)
    requires 0 < dst < src
    ensures src * 0x1_0000 / dst > 0
    ensures TpzWord0(src, dst) == src * 0x1_0000 / dst % 0x20_0000 * 0x100
    ensures TpzWord1(src, dst) == 0xFFFF_FFFF / (src * 0x1_0000 / dst) % 0x1_0000
  {
  }

  lemma TpzRatioFacts(src: nat, dst: nat, ratio: nat)
    requires 0 < dst && 3 * dst < 2 * src && 0 < ratio && dst * ratio <= src * 0x1_0000 < dst * (ratio + 1)
    ensures ratio % 0x20_0000 * 0x100 / 0x100 == ratio % 0x20_0000
    ensures ratio % 0x20_0000 == ratio <==> src < 32 * dst
    ensures 0xFFFF_FFFF / ratio % 0x1_0000 == 0xFFFF_FFFF / ratio
  {
    RatioAtLeast(src, dst, ratio);
    RatioFits(src, dst, ratio);
    ReciprocalFits(ratio);
    TpzFields(ratio, 0xFFFF_FFFF / ratio);
  }

  lemma TpzFields(ratio: nat, recip: nat)
    requires recip < 0x1_0000
    ensures ratio % 0x20_0000 * 0x100 / 0x100 == ratio % 0x20_0000
    ensures ratio % 0x20_0000 == ratio <==> ratio < 0x20_0000
    ensures recip % 0x1_0000 == recip
  {
  }

  lemma RatioAtLeast(src: nat, dst: nat, ratio: nat)
    requires 0 < dst && 3 * dst < 2 * src && src * 0x1_0000 < dst * (ratio + 1)
    ensures ratio >= 0x1_8000
  {
    if ratio < 0x1_8000 {
      ProductMonotone(dst, ratio + 1, 0x1_8000);
    }
  }

  lemma RatioFits(src: nat, dst: nat, ratio: nat)
    requires 0 < dst && dst * ratio <= src * 0x1_0000 < dst * (ratio + 1)
    ensures ratio < 0x20_0000 <==> src < 32 * dst
  {
    if ratio < 0x20_0000 {
      ProductMonotone(dst, ratio + 1, 0x20_0000);
    } else {
      ProductMonotone(dst, 0x20_0000, ratio);
    }
  }

  lemma ReciprocalFits(ratio: nat)
    requires ratio >= 0x1_8000
    ensures 0xFFFF_FFFF / ratio < 0x1_0000
  {
    var q := 0xFFFF_FFFF / ratio;
    RoundedDown(0xFFFF_FFFF, ratio);
    ProductMonotone(q, 0x1_8000, ratio);
  }

  predicate AllDrawable(planes: seq<Plane>) {
    forall i :: 0 <= i < |planes| ==> Drawable(planes[i])
  }

  /** The entries of all planes, in order. */
  function Entries(planes: seq<Plane>): (s: seq<Word>)
    requires AllDrawable(planes)
    ensures 9 * |planes| <= |s| <= 19 * |planes|
  {
    if planes == [] then []
    else Entries(planes[..|planes| - 1]) + Entry(planes[|planes| - 1], |planes| - 1)
  }

  /** Where the k-th plane's control word is. */
  function Start(planes: seq<Plane>, k: nat): nat
    requires AllDrawable(planes) && k <= |planes|
  {
    |Entries(planes[..k])|
  }

  // ---------------------------------------------------------------- building the list in the array

  method Emit(dlist: array<Word>, count: nat, w: Word) returns (next: nat)
    requires count < dlist.Length
    modifies dlist
    ensures next == count + 1 && dlist[..next] == old(dlist[..count]) + [w]
  {
    dlist[count] := w;
    next := count + 1;
  }

  datatype Parameter = HorizontalPpf | VerticalPpf | HorizontalTpz | VerticalTpz

  /** BuildHvsScalingParameterOrder */
  method ParameterOrder(x: Scaling, y: Scaling) returns (order: seq<Parameter>)
    ensures order == OrderOf(x, y)
  {
    order := [];
    if x.Ppf? { order := order + [HorizontalPpf]; }
    if y.Ppf? { order := order + [VerticalPpf]; }
    if x.Tpz? { order := order + [HorizontalTpz]; }
    if y.Tpz? { order := order + [VerticalTpz]; }
  }

  function ParameterWords(p: Plane, k: Parameter): (s: seq<Word>)
    requires Drawable(p)
    ensures |s| <= 3
  {
    var sw, dw, sh, dh := p.source.width, p.destination.width, p.source.height, p.destination.height;
    match k
    case HorizontalPpf => [PpfWord(sw, dw, p.filter.Nearest?)]
    case VerticalPpf => [PpfWord(sh, dh, p.filter.Nearest?), CONTEXT]
    case HorizontalTpz => [TpzWord0(sw, dw), TpzWord1(sw, dw)]
    case VerticalTpz => [TpzWord0(sh, dh), TpzWord1(sh, dh), CONTEXT]
  }

  method EmitAll(dlist: array<Word>, count: nat, words: seq<Word>) returns (next: nat)
    requires count + |words| <= dlist.Length
    modifies dlist
    ensures next == count + |words| && dlist[..next] == old(dlist[..count]) + words
  {
    next := count;
    for i := 0 to |words|
      invariant next == count + i && dlist[..next] == old(dlist[..count]) + words[..i]
    {
      next := Emit(dlist, next, words[i]);
    }
  }

  function OrderOf(x: Scaling, y: Scaling): (order: seq<Parameter>)
    ensures |order| <= 2
  {
    (if x.Ppf? then [HorizontalPpf] else []) + (if y.Ppf? then [VerticalPpf] else [])
    + (if x.Tpz? then [HorizontalTpz] else []) + (if y.Tpz? then [VerticalTpz] else [])
  }

  lemma OrderSpellsParameters(p: Plane, order: seq<Parameter>)
    requires Drawable(p)
    requires order == OrderOf(ScalingOf(p.source.width, p.destination.width), ScalingOf(p.source.height, p.destination.height))
    ensures |order| == 0 ==> Parameters(p) == []
    ensures |order| == 1 ==> Parameters(p) == ParameterWords(p, order[0])
    ensures |order| == 2 ==> Parameters(p) == ParameterWords(p, order[0]) + ParameterWords(p, order[1])
  {
    hide PpfWord, TpzWord0, TpzWord1, ScalingOf;
  }

  /** The parameter words of a scaled plane. */
  method EmitParameters(dlist: array<Word>, count: nat, p: Plane) returns (next: nat)
    requires Drawable(p) && count + 6 <= dlist.Length
    modifies dlist
    ensures next == count + |Parameters(p)| && dlist[..next] == old(dlist[..count]) + Parameters(p)
  {
    hide ParameterWords, Parameters, ScalingOf, OrderOf;
    var x, y := ScalingOf(p.source.width, p.destination.width), ScalingOf(p.source.height, p.destination.height);
    var order := ParameterOrder(x, y);
    next := count;
    ghost var words: seq<Word> := [];
    for i := 0 to |order|
      invariant next == count + |words| <= count + 3 * i && dlist[..next] == old(dlist[..count]) + words
      invariant i == 0 ==> words == []
      invariant i == 1 ==> words == ParameterWords(p, order[0])
      invariant i == 2 ==> words == ParameterWords(p, order[0]) + ParameterWords(p, order[1])
    {
      next := EmitAll(dlist, next, ParameterWords(p, order[i]));
      words := words + ParameterWords(p, order[i]);
    }
    OrderSpellsParameters(p, order);
  }

  method EmitGeometry(dlist: array<Word>, count: nat, p: Plane, slot: nat) returns (next: nat)
    requires Drawable(p) && count + 8 <= dlist.Length
    modifies dlist
    ensures next == count + |Geometry(p, slot)| && dlist[..next] == old(dlist[..count]) + Geometry(p, slot)
  {
    hide Pos, Ptr0;
    var address := Low32(p.address + p.source.y * p.pitch + p.source.x * (p.depth / 8));
    next := EmitAll(dlist, count, [Pos(p.destination.y, p.destination.x), 0xFFF0]);
    if !Unity(p) {
      next := Emit(dlist, next, Pos(p.destination.height - 1, p.destination.width - 1));
    }
    next := EmitAll(dlist, next, [Pos(p.source.height - 1, p.source.width - 1), CONTEXT, Ptr0(slot), address, p.pitch]);
  }

  method EmitScaler(dlist: array<Word>, count: nat, p: Plane, slot: nat) returns (next: nat)
    requires Drawable(p) && !Unity(p) && count + 10 <= dlist.Length
    modifies dlist
    ensures next == count + |ScalerWords(p, slot)| && dlist[..next] == old(dlist[..count]) + ScalerWords(p, slot)
  {
    hide Parameters, ScalingOf;
    var x, y := ScalingOf(p.source.width, p.destination.width), ScalingOf(p.source.height, p.destination.height);
    next := count;
    if !y.Unscaled? {
      next := Emit(dlist, next, Low32(slot * 256));
    }
    next := EmitParameters(dlist, next, p);
    if x.Ppf? || y.Ppf? {
      var kernel: Word := if p.filter.Nearest? then NEAREST_SLOT else MITCHELL_SLOT;
      next := EmitAll(dlist, next, [kernel, kernel, kernel, kernel]);
    }
  }

  /** Patching the first word of an entry that was written with a placeholder. */
  lemma Patched(before: seq<Word>, old': seq<Word>, body: seq<Word>, w: Word)
    requires before == old' + [0] + body + [CTL0_END]
    ensures before[|old'| := w] == old' + ([w] + body + [CTL0_END])
  {
  }

  /** AppendPlaneDlist: refuses only for lack of room. */
  method AppendPlane(dlist: array<Word>, count: nat, p: Plane, slot: nat) returns (ok: bool, next: nat)
    requires Drawable(p) && count <= dlist.Length
    modifies dlist
    ensures ok <==> dlist.Length - count >= ROOM
    ensures ok ==> next == count + |Entry(p, slot)| <= dlist.Length && dlist[..next] == old(dlist[..count]) + Entry(p, slot)
    ensures !ok ==> next == count && dlist[..] == old(dlist[..])
  {
    hide ScalingOf, SclField, Geometry, ScalerWords, Ctl0;
    if count >= dlist.Length || dlist.Length - count < ROOM { return false, count; }
    var x, y := ScalingOf(p.source.width, p.destination.width), ScalingOf(p.source.height, p.destination.height);
    var unity := Unity(p);
    var scl := if unity then 0 else SclField(x, y);
    ghost var was := dlist[..count];
    next := Emit(dlist, count, 0);
    next := EmitGeometry(dlist, next, p, slot);
    if !unity {
      next := EmitScaler(dlist, next, p, slot);
    }
    assert dlist[..next] == was + [0] + Body(p, slot);
    next := Emit(dlist, next, CTL0_END);
    ghost var placed := dlist[..next];
    Patched(placed, was, Body(p, slot), Ctl0(next - count, unity, p.format, scl));
    dlist[count] := Ctl0(next - count, unity, p.format, scl);
    assert dlist[..next] == placed[count := Ctl0(next - count, unity, p.format, scl)];
    return true, next;
  }

  /** Every plane starts with at least 32 words of room left. */
  predicate Fits(planes: seq<Plane>, capacity: nat)
    requires AllDrawable(planes)
  {
    forall k :: 0 <= k < |planes| ==> Start(planes, k) + ROOM <= capacity
  }

  predicate AllValid(planes: seq<Plane>, displayWidth: nat, displayHeight: nat) {
    forall i :: 0 <= i < |planes| ==> ValidPlane(planes[i], displayWidth, displayHeight)
  }

  function List(planes: seq<Plane>): seq<Word>
    requires AllDrawable(planes)
  {
    Entries(planes) + [CTL0_END]
  }

  /** BuildScanoutDlist: succeeds exactly for valid planes that fit. */
  method BuildScanout(planes: seq<Plane>, displayWidth: nat, displayHeight: nat, dlist: array<Word>) returns (ok: bool, count: nat)
    modifies dlist
    ensures ok <==> planes != [] && AllValid(planes, displayWidth, displayHeight) && Fits(planes, dlist.Length)
    ensures ok ==> AllDrawable(planes) && count == |List(planes)| <= dlist.Length && dlist[..count] == List(planes)
  {
    hide Entry;
    if planes == [] { return false, 0; }
    for i := 0 to |planes|
      invariant forall k :: 0 <= k < i ==> ValidPlane(planes[k], displayWidth, displayHeight)
    {
      if !ValidPlane(planes[i], displayWidth, displayHeight) { return false, 0; }
    }
    count := 0;
    assert planes[..0] == [];
    for i := 0 to |planes|
      invariant count == Start(planes, i) <= dlist.Length && dlist[..count] == Entries(planes[..i])
      invariant forall k :: 0 <= k < i ==> Start(planes, k) + ROOM <= dlist.Length
      invariant i > 0 ==> count + 1 <= dlist.Length
    {
      EntriesGrow(planes, i);
      ok, count := AppendPlane(dlist, count, planes[i], i);
      if !ok { return false, count; }
    }
    assert planes[..|planes|] == planes;
    count := Emit(dlist, count, CTL0_END);
    return true, count;
  }

  lemma EntriesGrow(planes: seq<Plane>, i: nat)
    requires AllDrawable(planes) && i < |planes|
    ensures Entries(planes[..i + 1]) == Entries(planes[..i]) + Entry(planes[i], i)
  {
    assert planes[..i + 1][..i] == planes[..i];
  }

  /** Seven valid planes always fit in the list buffer. */
  lemma SevenPlanesFit(planes: seq<Plane>)
    requires AllDrawable(planes) && |planes| <= 7
    ensures Fits(planes, CAPACITY) && |List(planes)| <= CAPACITY
  {
  }

  // ---------------------------------------------------------------- what the hardware reads

  /** The control words visited by following NEXT from `at` until an END. */
  function Walk(d: seq<Word>, at: nat): seq<nat>
    decreases if at < |d| then |d| - at else 0
  {
    if at >= |d| then []
    else if IsEnd(d[at]) || NextOf(d[at]) == 0 then [at]
    else [at] + Walk(d, at + NextOf(d[at]))
  }

  /** The starts of planes k, k+1, ... and of the final END. */
  function Starts(planes: seq<Plane>, k: nat): seq<nat>
    requires AllDrawable(planes) && k <= |planes|
    decreases |planes| - k
  {
    [Start(planes, k)] + if k == |planes| then [] else Starts(planes, k + 1)
  }

  lemma {:induction false} EntriesPrefix(planes: seq<Plane>, k: nat)
    requires AllDrawable(planes) && k <= |planes|
    ensures Start(planes, k) <= |Entries(planes)| && Entries(planes)[..Start(planes, k)] == Entries(planes[..k])
    decreases |planes| - k
  {
    hide Entry;
    if k == |planes| {
      assert planes[..k] == planes;
    } else {
      EntriesPrefix(planes, k + 1);
      EntriesGrow(planes, k);
      assert Entries(planes)[..Start(planes, k)] == Entries(planes)[..Start(planes, k + 1)][..Start(planes, k)];
    }
  }

  lemma EntryAt(planes: seq<Plane>, k: nat)
    requires AllDrawable(planes) && k < |planes|
    ensures Start(planes, k + 1) == Start(planes, k) + |Entry(planes[k], k)| <= |Entries(planes)|
    ensures Entries(planes)[Start(planes, k)] == Entry(planes[k], k)[0]
  {
    hide Entry;
    EntriesPrefix(planes, k + 1);
    EntriesGrow(planes, k);
    assert Entries(planes)[Start(planes, k)] == Entries(planes)[..Start(planes, k + 1)][Start(planes, k)];
  }

  lemma {:induction false} WalkFrom(planes: seq<Plane>, k: nat)
    requires AllDrawable(planes) && k <= |planes|
    ensures Walk(List(planes), Start(planes, k)) == Starts(planes, k)
    decreases |planes| - k
  {
    hide Entry, Entries, Start, NextOf, IsEnd, Walk, List;
    if k == |planes| {
      LastStop(planes);
    } else {
      NextStop(planes, k);
      WalkFrom(planes, k + 1);
    }
  }

  /** From a plane's control word the walk goes on at the next plane's. */
  lemma NextStop(planes: seq<Plane>, k: nat)
    requires AllDrawable(planes) && k < |planes|
    ensures Walk(List(planes), Start(planes, k)) == [Start(planes, k)] + Walk(List(planes), Start(planes, k + 1))
  {
    hide Entry, Entries, Start, NextOf, IsEnd;
    EntryAt(planes, k);
    var d, at := List(planes), Start(planes, k);
    assert d[at] == Entry(planes[k], k)[0];
  }

  lemma LastStop(planes: seq<Plane>)
    requires AllDrawable(planes)
    ensures Walk(List(planes), Start(planes, |planes|)) == [Start(planes, |planes|)]
  {
    hide Entry, Entries, Start, NextOf, IsEnd;
    EndWordEnds();
    LastStart(planes);
  }

  lemma EndWordEnds()
    ensures IsEnd(CTL0_END)
  {
  }

  lemma LastStart(planes: seq<Plane>)
    requires AllDrawable(planes)
    ensures Start(planes, |planes|) == |Entries(planes)|
  {
    assert planes[..|planes|] == planes;
  }

  /** Following NEXT from word 0 visits every plane's control word in order and ends on the final END. */
  lemma ListIsWellLinked(planes: seq<Plane>)
    requires AllDrawable(planes)
    ensures Walk(List(planes), 0) == Starts(planes, 0)
    ensures |Starts(planes, 0)| == |planes| + 1 && Starts(planes, 0)[|planes|] == |List(planes)| - 1
  {
    assert planes[..0] == [];
    WalkFrom(planes, 0);
    StartsCount(planes, 0);
    assert planes[..|planes|] == planes;
  }

  lemma {:induction false} StartsCount(planes: seq<Plane>, k: nat)
    requires AllDrawable(planes) && k <= |planes|
    ensures |Starts(planes, k)| == |planes| + 1 - k
    ensures Starts(planes, k)[|planes| - k] == Start(planes, |planes|)
    decreases |planes| - k
  {
    hide Start;
    if k < |planes| {
      StartsCount(planes, k + 1);
    }
  }

  // ---------------------------------------------------------------- double buffering

  function SlotBase(index: nat): nat {
    if index == 0 then SLOT0 else SLOT1
  }

  // Three signed 9-bit coefficients to a word.
  const MITCHELL: seq<Word> := [0x7ebfc00, 0x7e3edf8, 0x4805fd, 0x1dca432, 0x355769b, 0x1c6e3]
  const NEAREST: seq<Word> := [0x0, 0x0, 0x40201, 0x3fdfe01, 0x3fdfeff, 0x1feff]

  /** The eleven words of a kernel: six words of coefficients and their mirror image. */
  function KernelImage(kernel: seq<Word>): (s: seq<Word>)
    requires |kernel| == 6
    ensures |s| == KERNEL_WORDS
  {
    seq(KERNEL_WORDS, i requires 0 <= i < KERNEL_WORDS => kernel[if i < 6 then i else KERNEL_WORDS - i - 1])
  }

  /** A region beside the words a store wrote is as before. */
  lemma Apart(before: seq<Word>, after: seq<Word>, base: nat, n: nat, lo: nat, hi: nat)
    requires |before| == |after| && base + n <= |before| && lo <= hi <= |before|
    requires after[..base] == before[..base] && after[base + n..] == before[base + n..]
    requires hi <= base || base + n <= lo
    ensures after[lo..hi] == before[lo..hi]
  {
    forall k | lo <= k < hi
      ensures after[k] == before[k]
    {
      if k < base {
        assert after[k] == after[..base][k];
      } else {
        assert after[k] == after[base + n..][k - base - n];
      }
    }
  }

  class Hvs {
    const memory: array<Word>
    var submitted: nat
    var hasActive: bool
    var kernelsUploaded: bool
    var lptrs: nat
    ghost var shown: seq<Word>

    ghost predicate Holds(base: nat, list: seq<Word>)
      reads memory
    {
      base + |list| <= memory.Length && memory[base..base + |list|] == list
    }

    ghost predicate KernelsReady()
      reads memory
    {
      Holds(MITCHELL_SLOT, KernelImage(MITCHELL)) && Holds(NEAREST_SLOT, KernelImage(NEAREST))
    }

    /** The complete list `shown` is where the hardware points, and the kernels it names are in place. */
    ghost predicate Valid()
      reads this, memory
    {
      && memory.Length == 0x1000 && submitted <= 1
      && (kernelsUploaded ==> KernelsReady())
      && (hasActive ==>
            kernelsUploaded && lptrs == SlotBase(submitted) && |shown| <= CAPACITY && Holds(lptrs, shown))
    }

    constructor ()
      ensures Valid() && !hasActive
    {
      memory := new Word[0x1000];
      submitted, hasActive, kernelsUploaded, lptrs, shown := 0, false, false, 0, [];
    }

    /** WriteDlistWord over a run of words: nothing else changes. */
    method Store(base: nat, list: seq<Word>)
      requires base + |list| <= memory.Length
      modifies memory
      ensures Holds(base, list)
      ensures memory[..base] == old(memory[..base]) && memory[base + |list|..] == old(memory[base + |list|..])
    {
      for i := 0 to |list|
        invariant memory[base..base + i] == list[..i]
        invariant memory[..base] == old(memory[..base]) && memory[base + i..] == old(memory[base + i..])
      {
        ghost var before := memory[..];
        memory[base + i] := list[i];
        assert memory[base..base + i + 1] == before[base..base + i] + [list[i]];
        assert memory[base + i + 1..] == before[base + i..][1..];
      }
    }

    /** EnsureHvsFilterKernelsUploaded */
    method EnsureKernels()
      requires Valid()
      modifies memory, this`kernelsUploaded
      ensures Valid() && kernelsUploaded
      ensures memory[SLOT0..] == old(memory[SLOT0..])
      ensures old(kernelsUploaded) ==> memory[..] == old(memory[..])
    {
      hide KernelImage;
      if kernelsUploaded { return; }
      ghost var before := memory[..];
      Store(MITCHELL_SLOT, KernelImage(MITCHELL));
      ghost var between := memory[..];
      Apart(before, between, MITCHELL_SLOT, KERNEL_WORDS, SLOT0, 0x1000);
      Store(NEAREST_SLOT, KernelImage(NEAREST));
      Apart(between, memory[..], NEAREST_SLOT, KERNEL_WORDS, SLOT0, 0x1000);
      Apart(between, memory[..], NEAREST_SLOT, KERNEL_WORDS, MITCHELL_SLOT, MITCHELL_SLOT + KERNEL_WORDS);
      kernelsUploaded := true;
    }

    /**
     ProgramScanout: builds the list aside, writes it to a slot and points the
     hardware at it. A present while a list is active goes to the other slot, so
     neither the submitted list's slot nor the kernels are touched.
     */
    method ProgramScanout(planes: seq<Plane>, displayWidth: nat, displayHeight: nat, programChannel: bool) returns (ok: bool)
      requires Valid()
      modifies this, memory
      ensures Valid()
      ensures ok <==> planes != [] && AllValid(planes, displayWidth, displayHeight) && Fits(planes, CAPACITY)
      ensures ok ==> hasActive && shown == List(planes)
      ensures ok && !programChannel && old(hasActive) ==>
                && submitted == 1 - old(submitted)
                && memory[old(lptrs)..old(lptrs) + CAPACITY] == old(memory[lptrs..lptrs + CAPACITY])
                && memory[..SLOT0] == old(memory[..SLOT0])
      ensures !ok ==> unchanged(this`submitted, this`hasActive, this`lptrs, this`shown) && memory[SLOT0..] == old(memory[SLOT0..])
    {
      hide List, AllValid, Fits, KernelImage, AllDrawable;
      var index := if programChannel || !hasActive then 0 else 1 - submitted;
      var dlist := new Word[CAPACITY];
      var count;
      ok, count := BuildScanout(planes, displayWidth, displayHeight, dlist);
      if planes != [] && AllValid(planes, displayWidth, displayHeight) { EnsureKernels(); }
      if ok { Submit(index, dlist[..count]); }
    }

    /** The writes of a successful ProgramScanout. */
    method Submit(index: nat, list: seq<Word>)
      requires Valid() && kernelsUploaded && index <= 1 && |list| <= CAPACITY
      modifies this, memory
      ensures Valid() && hasActive && shown == list && submitted == index
      ensures memory[..SLOT0] == old(memory[..SLOT0])
      ensures memory[SlotBase(1 - index)..SlotBase(1 - index) + CAPACITY] == old(memory[SlotBase(1 - index)..SlotBase(1 - index) + CAPACITY])
    {
      hide KernelImage;
      var slot := SlotBase(index);
      ghost var before := memory[..];
      Store(slot, list);
      ghost var after, other := memory[..], SlotBase(1 - index);
      Apart(before, after, slot, |list|, 0, SLOT0);
      Apart(before, after, slot, |list|, other, other + CAPACITY);
      Apart(before, after, slot, |list|, MITCHELL_SLOT, MITCHELL_SLOT + KERNEL_WORDS);
      Apart(before, after, slot, |list|, NEAREST_SLOT, NEAREST_SLOT + KERNEL_WORDS);
      lptrs, submitted, hasActive, shown := slot, index, true, list;
    }
  }
}
