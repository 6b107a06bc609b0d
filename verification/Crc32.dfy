/**
 CRC-32 as src/update/crc32.cpp computes it (the polynomial of section 8 of
 RFC 1952), and the reason it protects records: every error burst of at most 32
 bits, wherever it starts, changes the checksum, and 32 is the exact limit.
 */
module Crc32 {
  type Word = bv32

  const POLYNOMIAL: Word := 0xedb88320
  const ONES: Word := 0xffffffff

  function Xor(a: Word, b: Word): Word { a ^ b }
  function Half(a: Word): Word { a >> 1 }
  predicate Even(a: Word) { a & 1 == 0 }
  predicate AtLeast(a: Word, t: Word) { a >= t }

  /** One turn of the inner loop. */
  function Shift(c: Word): Word {
    (c >> 1) ^ (if c & 1 == 1 then POLYNOMIAL else 0)
  }

  function ShiftBy(c: Word, n: nat): Word
    decreases n
  {
    if n == 0 then c else ShiftBy(Shift(c), n - 1)
  }

  /** A byte joins the register. */
  function Load(c: Word, b: bv8): Word { c ^ (b as Word) }

  /** The register after `bytes` went in from state `c`. */
  function Register(c: Word, bytes: seq<bv8>): Word {
    if bytes == [] then c
    else ShiftBy(Load(Register(c, bytes[..|bytes| - 1]), bytes[|bytes| - 1]), 8)
  }

  function Crc(bytes: seq<bv8>): Word {
    Register(ONES, bytes) ^ ONES
  }

  /** ByteView: bytes, or a null pointer with a size. */
  datatype ByteView = NoBytes(size: nat) | Bytes(data: seq<bv8>)

  /** CalculateCrc32: the negated low bit masks the polynomial. */
  method CalculateCrc32(view: ByteView) returns (r: Word)
    ensures r == if view.Bytes? then Crc(view.data) else if view.size != 0 then 0 else Crc([])
  {
    hide Shift;
    if view.NoBytes? && view.size != 0 { return 0; }
    var bytes: seq<bv8> := if view.Bytes? then view.data else [];
    var crc := ONES;
    for i := 0 to |bytes|
      invariant crc == Register(ONES, bytes[..i])
    {
      crc := crc ^ (bytes[i] as Word);
      ghost var loaded := crc;
      for bit := 0 to 8
        invariant ShiftBy(crc, 8 - bit) == ShiftBy(loaded, 8)
      {
        MaskIsConditional(crc);
        var mask := 0 - (crc & 1);
        crc := (crc >> 1) ^ (POLYNOMIAL & mask);
      }
      assert bytes[..i + 1][..i] == bytes[..i];
    }
    assert bytes[..|bytes|] == bytes;
    r := crc ^ ONES;
  }

  // ---------------------------------------------------------------- word facts

  lemma LowBit(c: Word)
    ensures c & 1 == 0 || c & 1 == 1
  {
  }

  lemma MaskedPolynomial(low: Word)
    requires low == 0 || low == 1
    ensures POLYNOMIAL & (0 - low) == if low == 1 then POLYNOMIAL else 0
  {
    if low == 1 {
      assert 0 - low == ONES;
    } else {
      assert 0 - low == 0;
    }
  }

  lemma MaskIsConditional(c: Word)
    ensures (c >> 1) ^ (POLYNOMIAL & (0 - (c & 1))) == Shift(c)
  {
    LowBit(c);
    MaskedPolynomial(c & 1);
  }

  lemma XorGroup(a: Word, b: Word, c: Word)
    ensures Xor(Xor(a, b), c) == Xor(a, Xor(b, c)) && Xor(a, b) == Xor(b, a)
    ensures Xor(a, 0) == a && Xor(a, a) == 0 && (Xor(a, b) == 0 <==> a == b)
  {
  }

  lemma XorPairs(a: Word, b: Word, c: Word, d: Word)
    ensures Xor(Xor(a, b), Xor(c, d)) == Xor(Xor(a, c), Xor(b, d))
  {
    hide Xor;
    XorGroup(Xor(a, b), c, d);
    XorGroup(a, b, c);
    XorGroup(b, c, 0);
    XorGroup(a, c, b);
    XorGroup(Xor(a, c), b, d);
  }

  lemma XorCancels(a: Word, b: Word, p: Word)
    ensures (a ^ p) ^ (b ^ p) == a ^ b && (a ^ p) ^ b == (a ^ b) ^ p && a ^ (b ^ p) == (a ^ b) ^ p && a ^ 0 == a
  {
  }

  lemma ParityOfXor(a: Word, b: Word)
    ensures (a ^ b) & 1 == (a & 1) ^ (b & 1) && (a ^ b) >> 1 == (a >> 1) ^ (b >> 1)
  {
  }

  lemma ShiftOfXor(a: Word, b: Word)
    ensures Shift(a ^ b) == Shift(a) ^ Shift(b)
  {
    ParityOfXor(a, b);
    LowBit(a);
    LowBit(b);
    var x, y := a >> 1, b >> 1;
    XorCancels(x, y, POLYNOMIAL);
    XorCancels(x, y, 0);
  }

  /** The inner loop is linear over exclusive or. */
  lemma ShiftIsLinear(a: Word, b: Word)
    ensures Shift(Xor(a, b)) == Xor(Shift(a), Shift(b))
  {
    hide Shift;
    ShiftOfXor(a, b);
  }

  /** ... and a bijection: only the zero register shifts to zero. */
  lemma ShiftHasNoKernel(c: Word)
    ensures Shift(c) == 0 <==> c == 0
  {
  }

  // ---------------------------------------------------------------- the register as a bit machine

  function BitWord(b: bool): Word { if b then 1 else 0 }
  function LowOf(b: bv8): bool { b & 1 == 1 }
  function RestOf(b: bv8): bv8 { b >> 1 }

  /** Clock one message bit into the register. */
  function Clock(c: Word, b: bool): Word {
    Shift(Xor(c, BitWord(b)))
  }

  function Clocks(c: Word, bits: seq<bool>): Word
    decreases |bits|
  {
    if bits == [] then c else Clocks(Clock(c, bits[0]), bits[1..])
  }

  /** The low `n` bits of a byte, least significant first. */
  function LowBits(b: bv8, n: nat): (r: seq<bool>)
    ensures |r| == n
  {
    if n == 0 then [] else [LowOf(b)] + LowBits(RestOf(b), n - 1)
  }

  function Halved(b: bv8, n: nat): bv8
    decreases n
  {
    if n == 0 then b else Halved(RestOf(b), n - 1)
  }

  /** The message as the bit stream the register sees. */
  function Bits(bytes: seq<bv8>): (r: seq<bool>)
    ensures |r| == 8 * |bytes|
  {
    if bytes == [] then [] else Bits(bytes[..|bytes| - 1]) + LowBits(bytes[|bytes| - 1], 8)
  }

  lemma ByteSplits(b: bv8)
    ensures b as Word == Xor(BitWord(LowOf(b)), RestOf(b) as Word << 1)
    ensures Shift(RestOf(b) as Word << 1) == RestOf(b) as Word
  {
  }

  lemma LoadIsXor(c: Word, b: bv8)
    ensures Load(c, b) == Xor(c, b as Word)
  {
  }

  /** Shifting a loaded byte once clocks its low bit and leaves the rest loaded. */
  lemma LoadClocks(c: Word, b: bv8)
    ensures Shift(Load(c, b)) == Load(Clock(c, LowOf(b)), RestOf(b))
  {
    hide Shift, Load, Xor, BitWord, LowOf, RestOf;
    var low, rest := BitWord(LowOf(b)), RestOf(b) as Word << 1;
    ByteSplits(b);
    LoadIsXor(c, b);
    LoadIsXor(Clock(c, LowOf(b)), RestOf(b));
    XorGroup(c, low, rest);
    ShiftIsLinear(Xor(c, low), rest);
  }

  lemma {:induction false} ByteIsItsBits(c: Word, b: bv8, n: nat)
    ensures ShiftBy(Load(c, b), n) == Load(Clocks(c, LowBits(b, n)), Halved(b, n))
    decreases n
  {
    hide Load, Shift, Clock, LowOf, RestOf;
    if n > 0 {
      LoadClocks(c, b);
      ByteIsItsBits(Clock(c, LowOf(b)), RestOf(b), n - 1);
      assert LowBits(b, n)[1..] == LowBits(RestOf(b), n - 1);
    }
  }

  lemma EightHalves(b: bv8)
    ensures b >> 1 >> 1 >> 1 >> 1 >> 1 >> 1 >> 1 >> 1 == 0
  {
  }

  lemma HalvedIsZero(b: bv8)
    ensures Halved(b, 8) == 0
  {
    EightHalves(b);
    var b4 := RestOf(RestOf(RestOf(RestOf(b))));
    assert Halved(b, 8) == Halved(RestOf(RestOf(b)), 6) == Halved(b4, 4);
    assert Halved(b4, 4) == Halved(RestOf(RestOf(b4)), 2);
  }

  lemma ByteRunsOut(b: bv8, c: Word)
    ensures Load(c, Halved(b, 8)) == c
  {
    hide Halved;
    HalvedIsZero(b);
  }

  lemma {:induction false} ClocksAppend(c: Word, x: seq<bool>, y: seq<bool>)
    ensures Clocks(c, x + y) == Clocks(Clocks(c, x), y)
    decreases |x|
  {
    hide Clock;
    if x == [] {
      assert x + y == y;
    } else {
      assert (x + y)[1..] == x[1..] + y;
      ClocksAppend(Clock(c, x[0]), x[1..], y);
    }
  }

  /** Byte by byte and bit by bit are the same register. */
  lemma {:induction false} RegisterIsBits(c: Word, bytes: seq<bv8>)
    ensures Register(c, bytes) == Clocks(c, Bits(bytes))
  {
    hide Load, Shift, Clock, Halved, ShiftBy, LowBits;
    if bytes != [] {
      var front, last := bytes[..|bytes| - 1], bytes[|bytes| - 1];
      RegisterIsBits(c, front);
      ByteIsItsBits(Register(c, front), last, 8);
      ByteRunsOut(last, Clocks(Register(c, front), LowBits(last, 8)));
      ClocksAppend(c, Bits(front), LowBits(last, 8));
    }
  }

  // ---------------------------------------------------------------- error bursts

  function Differences(x: seq<bool>, y: seq<bool>): (d: seq<bool>)
    requires |x| == |y|
    ensures |d| == |x|
    ensures forall i :: 0 <= i < |x| ==> d[i] == (x[i] != y[i])
  {
    seq(|x|, i requires 0 <= i < |x| => x[i] != y[i])
  }

  lemma ClockDifference(c: Word, e: Word, x: bool, y: bool)
    ensures Xor(Clock(c, x), Clock(e, y)) == Clock(Xor(c, e), x != y)
  {
    hide Shift;
    ShiftIsLinear(Xor(c, BitWord(x)), Xor(e, BitWord(y)));
    XorPairs(c, BitWord(x), e, BitWord(y));
    assert Xor(BitWord(x), BitWord(y)) == BitWord(x != y);
  }

  /** Two registers differ by what the difference stream alone would leave. */
  lemma {:induction false} DifferencePropagates(c: Word, e: Word, x: seq<bool>, y: seq<bool>)
    requires |x| == |y|
    ensures Xor(Clocks(c, x), Clocks(e, y)) == Clocks(Xor(c, e), Differences(x, y))
    decreases |x|
  {
    hide Shift, Xor, Clock;
    if x != [] {
      var d := Differences(x, y);
      assert d[1..] == Differences(x[1..], y[1..]);
      ClockDifference(c, e, x[0], y[0]);
      DifferencePropagates(Clock(c, x[0]), Clock(e, y[0]), x[1..], y[1..]);
    }
  }

  predicate Quiet(bits: seq<bool>) {
    forall i :: 0 <= i < |bits| ==> !bits[i]
  }

  lemma QuietClock(d: Word)
    ensures Clock(d, false) == 0 <==> d == 0
  {
    XorGroup(d, 0, 0);
    ShiftHasNoKernel(d);
  }

  /** Agreement keeps equal registers equal and different registers different. */
  lemma {:induction false} QuietKeepsDifference(d: Word, bits: seq<bool>)
    requires Quiet(bits)
    ensures Clocks(d, bits) == 0 <==> d == 0
    decreases |bits|
  {
    hide Clock;
    if bits != [] {
      QuietClock(d);
      QuietKeepsDifference(Clock(d, bits[0]), bits[1..]);
    }
  }

  /** `n` more clocks cannot bring a register of at least `t` to zero. */
  predicate Lasts(t: Word, n: nat)
    decreases n
  {
    if n == 0 then t != 0 else Even(t) && Lasts(Half(t), n - 1)
  }

  lemma ClockHalves(t: Word, d: Word, b: bool)
    requires Even(t) && AtLeast(d, t)
    ensures AtLeast(Clock(d, b), Half(t))
  {
  }

  lemma NonZero(t: Word, d: Word)
    requires AtLeast(d, t) && t != 0
    ensures d != 0
  {
  }

  lemma {:induction false} BurstLasts(t: Word, d: Word, bits: seq<bool>)
    requires AtLeast(d, t) && Lasts(t, |bits|)
    ensures Clocks(d, bits) != 0
    decreases |bits|
  {
    hide Clock, Even, AtLeast, Half;
    if bits == [] {
      NonZero(t, d);
    } else {
      ClockHalves(t, d, bits[0]);
      BurstLasts(Half(t), Clock(d, bits[0]), bits[1..]);
    }
  }

  lemma {:induction false} LastsShorter(t: Word, n: nat, m: nat)
    requires Lasts(t, n) && m <= n
    ensures Lasts(t, m)
    decreases n
  {
    if n > 0 {
      LastsShorter(Half(t), n - 1, if m > 0 then m - 1 else 0);
    }
  }

  lemma Doubling(t: Word, n: nat)
    requires Lasts(t, n) && t < 0x8000_0000
    ensures Lasts(t << 1, n + 1)
  {
    assert Half(t << 1) == t && Even(t << 1);
  }

  lemma MiddleBitLasts()
    ensures Lasts(0x1_0000, 16)
  {
    hide Half, Even;
    Doubling(0x1, 0); Doubling(0x2, 1); Doubling(0x4, 2); Doubling(0x8, 3);
    Doubling(0x10, 4); Doubling(0x20, 5); Doubling(0x40, 6); Doubling(0x80, 7);
    Doubling(0x100, 8); Doubling(0x200, 9); Doubling(0x400, 10); Doubling(0x800, 11);
    Doubling(0x1000, 12); Doubling(0x2000, 13); Doubling(0x4000, 14); Doubling(0x8000, 15);
  }

  lemma HighBitLasts()
    ensures Lasts(0x8000_0000, 31)
  {
    hide Half, Even;
    MiddleBitLasts();
    Doubling(0x1_0000, 16); Doubling(0x2_0000, 17); Doubling(0x4_0000, 18); Doubling(0x8_0000, 19);
    Doubling(0x10_0000, 20); Doubling(0x20_0000, 21); Doubling(0x40_0000, 22); Doubling(0x80_0000, 23);
    Doubling(0x100_0000, 24); Doubling(0x200_0000, 25); Doubling(0x400_0000, 26); Doubling(0x800_0000, 27);
    Doubling(0x1000_0000, 28); Doubling(0x2000_0000, 29); Doubling(0x4000_0000, 30);
  }

  lemma FirstError()
    ensures AtLeast(Clock(0, true), 0x8000_0000)
  {
  }

  /** A single burst of at most 32 bits in an otherwise equal stream survives in the register. */
  lemma BurstSurvives(quiet: seq<bool>, burst: seq<bool>, rest: seq<bool>)
    requires Quiet(quiet) && Quiet(rest) && 0 < |burst| <= 32 && burst[0]
    ensures Clocks(0, quiet + burst + rest) != 0
  {
    hide Clock, AtLeast, Lasts;
    QuietKeepsDifference(0, quiet);
    ClocksAppend(0, quiet + burst, rest);
    ClocksAppend(0, quiet, burst);
    FirstError();
    HighBitLasts();
    LastsShorter(0x8000_0000, 31, |burst| - 1);
    BurstLasts(0x8000_0000, Clock(0, true), burst[1..]);
    QuietKeepsDifference(Clocks(0, burst), rest);
  }

  /** The first position at which two streams differ. */
  lemma {:induction false} FirstDifference(d: seq<bool>) returns (f: nat)
    requires !Quiet(d)
    ensures f < |d| && d[f] && Quiet(d[..f])
  {
    if d[0] {
      f := 0;
    } else {
      var i :| 0 <= i < |d| && d[i];
      assert d[1..][i - 1];
      var g := FirstDifference(d[1..]);
      f := g + 1;
      assert forall j :: 1 <= j < f ==> d[j] == d[1..][..g][j - 1];
    }
  }

  /**
   Corruption detection: messages of equal length whose bit streams differ, and only
   inside one window of 32 consecutive bits, have different checksums.
   */
  lemma BurstDetected(x: seq<bv8>, y: seq<bv8>, p: nat)
    requires |x| == |y| && Bits(x) != Bits(y)
    requires forall i :: 0 <= i < |Bits(x)| && Bits(x)[i] != Bits(y)[i] ==> p <= i < p + 32
    ensures Crc(x) != Crc(y)
  {
    hide Xor, Clocks, Register, Bits;
    var d := Differences(Bits(x), Bits(y));
    var f := FirstDifference(d);
    var e := if p + 32 <= |d| then p + 32 else |d|;
    assert d == d[..f] + d[f..e] + d[e..];
    BurstSurvives(d[..f], d[f..e], d[e..]);
    DifferencePropagates(ONES, ONES, Bits(x), Bits(y));
    XorGroup(ONES, ONES, 0);
    RegisterIsBits(ONES, x);
    RegisterIsBits(ONES, y);
    XorGroup(Register(ONES, x), Register(ONES, y), 0);
    XorInjective(Register(ONES, x), Register(ONES, y));
  }

  lemma XorInjective(a: Word, b: Word)
    ensures a ^ ONES == b ^ ONES ==> a == b
  {
  }

  lemma {:induction false} BitsAppend(x: seq<bv8>, y: seq<bv8>)
    ensures Bits(x + y) == Bits(x) + Bits(y)
    decreases |y|
  {
    hide LowBits;
    if y == [] {
      assert x + y == x;
    } else {
      var front := y[..|y| - 1];
      assert (x + y)[..|x + y| - 1] == x + front;
      BitsAppend(x, front);
    }
  }

  lemma ByteFromParts(a: bv8, b: bv8)
    requires LowOf(a) == LowOf(b) && RestOf(a) == RestOf(b)
    ensures a == b
  {
  }

  lemma {:induction false} LowBitsInjective(a: bv8, b: bv8, n: nat)
    requires LowBits(a, n) == LowBits(b, n) && Halved(a, n) == Halved(b, n)
    ensures a == b
    decreases n
  {
    hide LowOf, RestOf;
    if n > 0 {
      assert LowBits(a, n)[0] == LowOf(a) && LowBits(b, n)[0] == LowOf(b);
      assert LowBits(a, n)[1..] == LowBits(RestOf(a), n - 1) && LowBits(b, n)[1..] == LowBits(RestOf(b), n - 1);
      LowBitsInjective(RestOf(a), RestOf(b), n - 1);
      ByteFromParts(a, b);
    }
  }

  lemma {:induction false} BitsInjective(x: seq<bv8>, y: seq<bv8>)
    requires |x| == |y| && Bits(x) == Bits(y)
    ensures x == y
  {
    hide LowBits, Halved;
    if x != [] {
      var n := |x| - 1;
      assert Bits(x)[..8 * n] == Bits(x[..n]) && Bits(y)[..8 * n] == Bits(y[..n]);
      assert Bits(x)[8 * n..] == LowBits(x[n], 8) && Bits(y)[8 * n..] == LowBits(y[n], 8);
      BitsInjective(x[..n], y[..n]);
      HalvedIsZero(x[n]);
      HalvedIsZero(y[n]);
      LowBitsInjective(x[n], y[n], 8);
    }
  }

  /** The byte-level form: a changed window of at most four bytes is always noticed. */
  lemma WindowDetected(before: seq<bv8>, u: seq<bv8>, v: seq<bv8>, after: seq<bv8>)
    requires |u| == |v| <= 4 && u != v
    ensures Crc(before + u + after) != Crc(before + v + after)
  {
    hide Crc, Bits;
    var x, y := before + u + after, before + v + after;
    BitsAppend(before + u, after);
    BitsAppend(before, u);
    BitsAppend(before + v, after);
    BitsAppend(before, v);
    assert Bits(u) != Bits(v) by {
      if Bits(u) == Bits(v) {
        BitsInjective(u, v);
        assert false;
      }
    }
    var p, q := |Bits(before)|, |Bits(before)| + |Bits(u)|;
    assert Bits(x)[p..q] == Bits(u) && Bits(y)[p..q] == Bits(v);
    assert Bits(x)[..p] == Bits(y)[..p] && Bits(x)[q..] == Bits(y)[q..];
    forall i | 0 <= i < |Bits(x)| && (i < p || q <= i)
      ensures Bits(x)[i] == Bits(y)[i]
    {
      if i < p {
        assert Bits(x)[..p][i] == Bits(y)[..p][i];
      } else {
        assert Bits(x)[q..][i - q] == Bits(y)[q..][i - q];
      }
    }
    BurstDetected(x, y, |Bits(before)|);
  }

  lemma EightShifts(c: Word)
    ensures ShiftBy(c, 8) == Shift(Shift(Shift(Shift(Shift(Shift(Shift(Shift(c))))))))
  {
    hide Shift;
    assert ShiftBy(c, 8) == ShiftBy(Shift(Shift(c)), 6);
    assert ShiftBy(Shift(Shift(c)), 6) == ShiftBy(Shift(Shift(Shift(Shift(c)))), 4);
    assert ShiftBy(Shift(Shift(Shift(Shift(c)))), 4) == ShiftBy(Shift(Shift(Shift(Shift(Shift(Shift(c)))))), 2);
  }

  /** One byte into the register, as the value `after`. */
  lemma Takes(c: Word, front: seq<bv8>, b: bv8, loaded: Word, after: Word)
    requires Register(ONES, front) == c && loaded == c ^ (b as Word)
    requires after == Shift(Shift(Shift(Shift(Shift(Shift(Shift(Shift(loaded))))))))
    ensures Register(ONES, front + [b]) == after
  {
    hide Shift;
    EightShifts(loaded);
    assert (front + [b])[..|front|] == front;
  }

  lemma BurstRegister()
    ensures Register(ONES, [0x41, 0x06, 0x71, 0xdb]) == 0xdebb20e2
  {
    Takes(0xffffffff, [], 0x41, 0xffffffbe, 0x2c266174);
    Takes(0x2c266174, [0x41], 0x06, 0x2c266172, 0xbe273671);
    Takes(0xbe273671, [0x41, 0x06], 0x71, 0xbe273600, 0x00be2736);
    Takes(0x00be2736, [0x41, 0x06, 0x71], 0xdb, 0x00be27ed, 0xdebb20e2);
    assert [0x41, 0x06, 0x71] + [0xdb] == [0x41 as bv8, 0x06, 0x71, 0xdb];
  }

  lemma HalfQuietRegister()
    ensures Register(ONES, [0, 0]) == 0xbe26ed00
  {
    Takes(0xffffffff, [], 0, 0xffffffff, 0x2dfd1072);
    Takes(0x2dfd1072, [0], 0, 0x2dfd1072, 0xbe26ed00);
    assert [0] + [0] == [0 as bv8, 0];
  }

  lemma QuietRegister()
    ensures Register(ONES, [0, 0, 0, 0]) == 0xdebb20e3
  {
    HalfQuietRegister();
    Takes(0xbe26ed00, [0, 0], 0, 0xbe26ed00, 0x00be26ed);
    Takes(0x00be26ed, [0, 0, 0], 0, 0x00be26ed, 0xdebb20e3);
    assert [0, 0, 0] + [0] == [0 as bv8, 0, 0, 0];
  }

  /** The limit is exact: this 33-bit burst, the generator itself, goes unnoticed. */
  lemma LongerBurstCanHide()
    ensures Crc([0x41, 0x06, 0x71, 0xdb, 0x01]) == Crc([0, 0, 0, 0, 0])
  {
    hide Shift, ShiftBy;
    BurstRegister();
    QuietRegister();
    assert [0x41, 0x06, 0x71, 0xdb, 0x01][..4] == [0x41 as bv8, 0x06, 0x71, 0xdb];
    assert [0, 0, 0, 0, 0][..4] == [0 as bv8, 0, 0, 0];
  }

  lemma OneToThree()
    ensures Register(ONES, [0x31, 0x32, 0x33]) == 0x77b79c2d
  {
    Takes(0xffffffff, [], 0x31, 0xffffffce, 0x7c231048);
    Takes(0x7c231048, [0x31], 0x32, 0x7c23107a, 0xb0acbb32);
    assert [0x31] + [0x32] == [0x31 as bv8, 0x32];
    Takes(0xb0acbb32, [0x31, 0x32], 0x33, 0xb0acbb01, 0x77b79c2d);
    assert [0x31, 0x32] + [0x33] == [0x31 as bv8, 0x32, 0x33];
  }

  lemma OneToSix()
    ensures Register(ONES, [0x31, 0x32, 0x33, 0x34, 0x35, 0x36]) == 0xf68d2c9e
  {
    OneToThree();
    Takes(0x77b79c2d, [0x31, 0x32, 0x33], 0x34, 0x77b79c19, 0x641c1f5c);
    assert [0x31, 0x32, 0x33] + [0x34] == [0x31 as bv8, 0x32, 0x33, 0x34];
    Takes(0x641c1f5c, [0x31, 0x32, 0x33, 0x34], 0x35, 0x641c1f69, 0x340ac5e3);
    assert [0x31, 0x32, 0x33, 0x34] + [0x35] == [0x31 as bv8, 0x32, 0x33, 0x34, 0x35];
    Takes(0x340ac5e3, [0x31, 0x32, 0x33, 0x34, 0x35], 0x36, 0x340ac5d5, 0xf68d2c9e);
    assert [0x31, 0x32, 0x33, 0x34, 0x35] + [0x36] == [0x31 as bv8, 0x32, 0x33, 0x34, 0x35, 0x36];
  }

  lemma OneToNine()
    ensures Register(ONES, [0x31, 0x32, 0x33, 0x34, 0x35, 0x36, 0x37, 0x38, 0x39]) == 0x340bc6d9
  {
    OneToSix();
    Takes(0xf68d2c9e, [0x31, 0x32, 0x33, 0x34, 0x35, 0x36], 0x37, 0xf68d2ca9, 0xaffc9660);
    assert [0x31, 0x32, 0x33, 0x34, 0x35, 0x36] + [0x37] == [0x31 as bv8, 0x32, 0x33, 0x34, 0x35, 0x36, 0x37];
    Takes(0xaffc9660, [0x31, 0x32, 0x33, 0x34, 0x35, 0x36, 0x37], 0x38, 0xaffc9658, 0x651f2550);
    assert [0x31, 0x32, 0x33, 0x34, 0x35, 0x36, 0x37] + [0x38] == [0x31 as bv8, 0x32, 0x33, 0x34, 0x35, 0x36, 0x37, 0x38];
    Takes(0x651f2550, [0x31, 0x32, 0x33, 0x34, 0x35, 0x36, 0x37, 0x38], 0x39, 0x651f2569, 0x340bc6d9);
    assert [0x31, 0x32, 0x33, 0x34, 0x35, 0x36, 0x37, 0x38] + [0x39] == [0x31 as bv8, 0x32, 0x33, 0x34, 0x35, 0x36, 0x37, 0x38, 0x39];
  }

  /** The check value of section 8 of RFC 1952's polynomial: the digits 1 to 9. */
  lemma CheckValue()
    ensures Crc([0x31, 0x32, 0x33, 0x34, 0x35, 0x36, 0x37, 0x38, 0x39]) == 0xcbf43926
  {
    hide Register;
    OneToNine();
  }
}
