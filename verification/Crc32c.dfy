/**
 * CRC-32C (storage/vhdx/crc32c.rs). The register laws are proved on 32-bit vectors; what follows
 * from them for whole inputs is proved for any register that satisfies them.
 */
module Crc32c {
  const POLY: bv32 := 0x82F6_3B78
  const ONES: bv32 := 0xFFFF_FFFF

  /** One bit of the division, on the reflected register. */
  function Step(c: bv32): bv32 {
    (c >> 1) ^ (POLY & (0 - (c & 1)))
  }

  function Steps(c: bv32, n: nat): bv32 {
    Iterate(Step, c, n)
  }

  function StepByte(c: bv32): bv32 {
    Steps(c, 8)
  }

  function Xor(c: bv32, d: bv32): bv32 {
    c ^ d
  }

  function Low(b: bv8): bv32 {
    b as bv32
  }

  function CrcOf(data: seq<bv8>): bv32 {
    Xor(Fold(REGISTER, ONES, data), ONES)
  }

  method Crc(data: seq<bv8>) returns (crc: bv32)
    ensures crc == CrcOf(data)
  {
    crc := ONES;
    var rest := data;
    while rest != []
      invariant Fold(REGISTER, crc, rest) == Fold(REGISTER, ONES, data)
      decreases |rest|
    {
      FoldNext(crc, rest);
      crc := EightBits(crc ^ rest[0] as bv32);
      rest := rest[1..];
    }
    crc := crc ^ ONES;
  }

  method EightBits(c: bv32) returns (crc: bv32)
    ensures crc == StepByte(c)
  {
    crc := c;
    for k := 0 to 8
      invariant crc == Steps(c, k)
    {
      var mask := 0 - (crc & 1);
      crc := (crc >> 1) ^ (POLY & mask);
    }
  }

  lemma FoldNext(c: bv32, data: seq<bv8>)
    requires data != []
    ensures Fold(REGISTER, c, data) == Fold(REGISTER, StepByte(c ^ data[0] as bv32), data[1..])
  {
  }

  // ----- any register -----

  /** The register's operations; `fits(w, k)` bounds a word to `k` bytes. */
  datatype Register<!R> = Register(
    xor: (R, R) -> R, low: bv8 -> R, stepByte: R -> R, shiftByte: R -> R, zero: R, fits: (R, nat) -> bool)

  function Fold<R>(g: Register<R>, c: R, data: seq<bv8>): R
    decreases |data|
  {
    if data == [] then c else Fold(g, g.stepByte(g.xor(c, g.low(data[0]))), data[1..])
  }

  /** Adding is associative and has a zero. */
  ghost predicate Adds<R(!new)>(g: Register<R>) {
    && (forall a, b, c :: g.xor(g.xor(a, b), c) == g.xor(a, g.xor(b, c)))
    && (forall a :: g.xor(a, g.zero) == a)
  }

  /** Adding a fixed value and stepping are injective. */
  ghost predicate Injective<R(!new)>(g: Register<R>) {
    && (forall a, b, c {:trigger g.xor(a, c), g.xor(b, c)} :: a != b ==> g.xor(a, c) != g.xor(b, c))
    && (forall a, b, c {:trigger g.xor(c, a), g.xor(c, b)} :: a != b ==> g.xor(c, a) != g.xor(c, b))
    && (forall a, b :: a != b ==> g.stepByte(a) != g.stepByte(b))
  }

  /** Adding a three-byte word after a step is adding it one byte higher before. */
  ghost predicate Shifts<R(!new)>(g: Register<R>) {
    forall c, y :: g.fits(y, 3) ==> g.xor(g.stepByte(c), y) == g.stepByte(g.xor(c, g.shiftByte(y)))
  }

  /** A byte below a shifted word is a word one byte longer, and both can be told from it. */
  ghost predicate Packs<R(!new)>(g: Register<R>) {
    && g.fits(g.zero, 0)
    && (forall b: bv8, w: R, k: nat :: k < 4 && g.fits(w, k) ==> g.fits(g.xor(g.low(b), g.shiftByte(w)), k + 1))
    && (forall w: R, k: nat :: k < 4 && g.fits(w, k) ==> g.fits(w, 3))
    && (forall b: bv8, c: bv8, v: R, w: R ::
          g.fits(v, 3) && g.fits(w, 3) && g.xor(g.low(b), g.shiftByte(v)) == g.xor(g.low(c), g.shiftByte(w)) ==> b == c && v == w)
  }

  ghost predicate Laws<R(!new)>(g: Register<R>) {
    Adds(g) && Injective(g) && Shifts(g) && Packs(g)
  }

  /** Different registers stay different under the same data. */
  lemma {:induction false} FoldInjective<R(!new)>(g: Register<R>, c: R, d: R, data: seq<bv8>)
    requires Injective(g) && c != d
    ensures Fold(g, c, data) != Fold(g, d, data)
    decreases |data|
  {
    if data != [] {
      FoldInjective(g, g.stepByte(g.xor(c, g.low(data[0]))), g.stepByte(g.xor(d, g.low(data[0]))), data[1..]);
    }
  }

  lemma {:induction false} FoldConcat<R(!new)>(g: Register<R>, c: R, a: seq<bv8>, b: seq<bv8>)
    ensures Fold(g, c, a + b) == Fold(g, Fold(g, c, a), b)
    decreases |a|
  {
    if a == [] {
      assert a + b == b;
    } else {
      assert (a + b)[1..] == a[1..] + b;
      FoldConcat(g, g.stepByte(g.xor(c, g.low(a[0]))), a[1..], b);
    }
  }

  /** A few bytes as one word, the first byte lowest. */
  function Word<R>(g: Register<R>, s: seq<bv8>): R
    decreases |s|
  {
    if s == [] then g.zero else g.xor(g.low(s[0]), g.shiftByte(Word(g, s[1..])))
  }

  function StepBytes<R>(g: Register<R>, c: R, n: nat): R
    decreases n
  {
    if n == 0 then c else StepBytes(g, g.stepByte(c), n - 1)
  }

  lemma PackFits<R(!new)>(g: Register<R>, b: bv8, w: R, k: nat)
    requires Packs(g) && k < 4 && g.fits(w, k)
    ensures g.fits(g.xor(g.low(b), g.shiftByte(w)), k + 1)
  {
  }

  lemma PackInjective<R(!new)>(g: Register<R>, b: bv8, c: bv8, v: R, w: R, k: nat)
    requires Packs(g) && k < 4 && g.fits(v, k) && g.fits(w, k)
    requires g.xor(g.low(b), g.shiftByte(v)) == g.xor(g.low(c), g.shiftByte(w))
    ensures b == c && v == w
  {
    assert g.fits(v, 3) && g.fits(w, 3);
  }

  lemma {:induction false} WordFits<R(!new)>(g: Register<R>, s: seq<bv8>)
    requires Packs(g) && |s| <= 4
    ensures g.fits(Word(g, s), |s|)
    decreases |s|
  {
    if s != [] {
      WordFits(g, s[1..]);
      PackFits(g, s[0], Word(g, s[1..]), |s| - 1);
    }
  }

  /** Up to four bytes act on the register as one word added before the steps. */
  lemma {:induction false} FoldWord<R(!new)>(g: Register<R>, c: R, s: seq<bv8>)
    requires Adds(g) && Shifts(g) && Packs(g) && |s| <= 4
    ensures Fold(g, c, s) == StepBytes(g, g.xor(c, Word(g, s)), |s|)
    decreases |s|
  {
    if s != [] {
      var w, low := Word(g, s[1..]), g.low(s[0]);
      WordFits(g, s[1..]);
      FoldWord(g, g.stepByte(g.xor(c, low)), s[1..]);
      assert g.xor(g.stepByte(g.xor(c, low)), w) == g.stepByte(g.xor(g.xor(c, low), g.shiftByte(w)));
      assert g.xor(g.xor(c, low), g.shiftByte(w)) == g.xor(c, g.xor(low, g.shiftByte(w)));
    }
  }

  lemma {:induction false} StepBytesInjective<R(!new)>(g: Register<R>, c: R, d: R, n: nat)
    requires Injective(g) && c != d
    ensures StepBytes(g, c, n) != StepBytes(g, d, n)
    decreases n
  {
    if n > 0 {
      StepBytesInjective(g, g.stepByte(c), g.stepByte(d), n - 1);
    }
  }

  lemma {:induction false} WordInjective<R(!new)>(g: Register<R>, s: seq<bv8>, t: seq<bv8>)
    requires Packs(g) && |s| == |t| <= 4 && Word(g, s) == Word(g, t)
    ensures s == t
    decreases |s|
  {
    if s != [] {
      WordFits(g, s[1..]);
      WordFits(g, t[1..]);
      PackInjective(g, s[0], t[0], Word(g, s[1..]), Word(g, t[1..]), |s| - 1);
      WordInjective(g, s[1..], t[1..]);
      assert s == [s[0]] + s[1..] && t == [t[0]] + t[1..];
    }
  }

  lemma FoldBurst<R(!new)>(g: Register<R>, c: R, before: seq<bv8>, s: seq<bv8>, t: seq<bv8>, after: seq<bv8>)
    requires Laws(g) && |s| == |t| <= 4 && s != t
    ensures Fold(g, c, before + s + after) != Fold(g, c, before + t + after)
  {
    var d := Fold(g, c, before);
    FoldConcat(g, c, before, s);
    FoldConcat(g, c, before, t);
    FoldConcat(g, c, before + s, after);
    FoldConcat(g, c, before + t, after);
    FoldWord(g, d, s);
    FoldWord(g, d, t);
    if Word(g, s) == Word(g, t) {
      WordInjective(g, s, t);
    }
    StepBytesInjective(g, g.xor(d, Word(g, s)), g.xor(d, Word(g, t)), |s|);
    FoldInjective(g, Fold(g, d, s), Fold(g, d, t), after);
  }

  // ----- repeated steps -----

  function Iterate<R>(f: R -> R, c: R, n: nat): R
    decreases n
  {
    if n == 0 then c else f(Iterate(f, c, n - 1))
  }

  /** `y` doubled `n` times. */
  function Up<R>(double: R -> R, y: R, n: nat): R
    decreases n
  {
    if n == 0 then y else Up(double, double(y), n - 1)
  }

  /** `y` can be doubled `n` times without losing anything. */
  predicate Room<R>(double: R -> R, ok: R -> bool, y: R, n: nat)
    decreases n
  {
    n == 0 || (ok(y) && Room(double, ok, double(y), n - 1))
  }

  /** If adding after one step is adding the double before it, then so for `n` steps and doublings. */
  lemma {:induction false} IterateShift<R(!new)>(f: R -> R, add: (R, R) -> R, double: R -> R, ok: R -> bool, c: R, y: R, n: nat)
    requires forall d, z :: ok(z) ==> add(f(d), z) == f(add(d, double(z)))
    requires Room(double, ok, y, n)
    ensures add(Iterate(f, c, n), y) == Iterate(f, add(c, Up(double, y, n)), n)
    decreases n
  {
    if n > 0 {
      IterateShift(f, add, double, ok, c, double(y), n - 1);
      assert add(f(Iterate(f, c, n - 1)), y) == f(add(Iterate(f, c, n - 1), double(y)));
    }
  }

  lemma {:induction false} IterateInjective<R(!new)>(f: R -> R, c: R, d: R, n: nat)
    requires forall x, y :: x != y ==> f(x) != f(y)
    requires c != d
    ensures Iterate(f, c, n) != Iterate(f, d, n)
    decreases n
  {
    if n > 0 {
      IterateInjective(f, c, d, n - 1);
    }
  }

  // ----- the CRC-32C register satisfies the laws -----

  function Double(y: bv32): bv32 {
    y << 1
  }

  predicate TopClear(y: bv32) {
    y & 0x8000_0000 == 0
  }

  function ShiftByte(y: bv32): bv32 {
    Up(Double, y, 8)
  }

  function Fits(w: bv32, k: nat): bool {
    match k
    case 0 => w == 0
    case 1 => w <= 0xFF
    case 2 => w <= 0xFFFF
    case 3 => w <= 0xFF_FFFF
    case _ => true
  }

  const REGISTER: Register<bv32> := Register(Xor, Low, StepByte, ShiftByte, 0, Fits)

  /** The step's inverse: its top bit tells whether the polynomial was added. */
  function Unstep(c: bv32): bv32 {
    if c & 0x8000_0000 == 0 then c << 1 else ((c ^ POLY) << 1) | 1
  }

  lemma StepInverse(c: bv32)
    ensures Unstep(Step(c)) == c
  {
  }

  lemma StepDouble(c: bv32, y: bv32)
    requires TopClear(y)
    ensures Xor(Step(c), y) == Step(Xor(c, Double(y)))
  {
  }

  lemma {:induction false} DoubleRoom(y: bv32, m: bv32, n: nat)
    requires y & m == 0 && Covers(m, n)
    ensures Room(Double, TopClear, y, n)
    decreases n
  {
    if n > 0 {
      MaskUp(y, m);
      DoubleRoom(Double(y), Double(m), n - 1);
    }
  }

  /** The mask has its top `n` bits set. */
  predicate Covers(m: bv32, n: nat)
    decreases n, m
  {
    n == 0 || (m & 0x8000_0000 != 0 && Covers(Double(m), n - 1))
  }

  lemma MaskUp(y: bv32, m: bv32)
    requires y & m == 0
    ensures Double(y) & Double(m) == 0
    ensures m & 0x8000_0000 != 0 ==> TopClear(y)
  {
  }

  lemma ByteMask()
    ensures Covers(0xFF00_0000, 8)
  {
    assert Covers(0x8000_0000, 1);
    assert Covers(0xC000_0000, 2);
    assert Covers(0xE000_0000, 3);
    assert Covers(0xF000_0000, 4);
    assert Covers(0xF800_0000, 5);
    assert Covers(0xFC00_0000, 6);
    assert Covers(0xFE00_0000, 7);
  }

  lemma UpEight<R>(double: R -> R, y: R)
    ensures Up(double, y, 8) == double(double(double(double(double(double(double(double(y))))))))
  {
  }

  lemma EightDoubles(y: bv32)
    ensures Double(Double(Double(Double(Double(Double(Double(Double(y)))))))) == y << 8
  {
  }

  lemma ShiftByteIs(y: bv32)
    ensures ShiftByte(y) == y << 8
  {
    UpEight(Double, y);
    EightDoubles(y);
  }

  lemma StepByteShifts(c: bv32, y: bv32)
    requires y <= 0xFF_FFFF
    ensures Xor(StepByte(c), y) == StepByte(Xor(c, ShiftByte(y)))
  {
    forall d, z | TopClear(z)
      ensures Xor(Step(d), z) == Step(Xor(d, Double(z)))
    {
      StepDouble(d, z);
    }
    ByteMask();
    assert y & 0xFF00_0000 == 0;
    DoubleRoom(y, 0xFF00_0000, 8);
    IterateShift(Step, Xor, Double, TopClear, c, y, 8);
  }

  lemma StepByteInjective(c: bv32, d: bv32)
    requires c != d
    ensures StepByte(c) != StepByte(d)
  {
    forall x, y | x != y
      ensures Step(x) != Step(y)
    {
      StepInverse(x);
      StepInverse(y);
    }
    IterateInjective(Step, c, d, 8);
  }

  lemma PackBits(b: bv8, w: bv32)
    requires w <= 0xFF_FFFF
    ensures (b as bv32 ^ (w << 8)) & 0xFF == b as bv32 && (b as bv32 ^ (w << 8)) >> 8 == w
  {
  }

  lemma Widen(b: bv8, c: bv8)
    requires b as bv32 == c as bv32
    ensures b == c
  {
  }

  lemma PackedFits(b: bv8, w: bv32, k: nat)
    requires k < 4 && Fits(w, k)
    ensures Fits(Xor(Low(b), ShiftByte(w)), k + 1)
  {
    ShiftByteIs(w);
    PackLimits(b, w);
  }

  lemma PackLimits(b: bv8, w: bv32)
    ensures w == 0 ==> b as bv32 ^ (w << 8) <= 0xFF
    ensures w <= 0xFF ==> b as bv32 ^ (w << 8) <= 0xFFFF
    ensures w <= 0xFFFF ==> b as bv32 ^ (w << 8) <= 0xFF_FFFF
  {
  }

  lemma PackedDiffer(b: bv8, c: bv8, v: bv32, w: bv32)
    requires v <= 0xFF_FFFF && w <= 0xFF_FFFF && Xor(Low(b), ShiftByte(v)) == Xor(Low(c), ShiftByte(w))
    ensures b == c && v == w
  {
    ShiftByteIs(v);
    ShiftByteIs(w);
    PackBits(b, v);
    PackBits(c, w);
    Widen(b, c);
  }

  lemma RegisterAdds()
    ensures Adds(REGISTER)
  {
    forall a, b, c
      ensures Xor(Xor(a, b), c) == Xor(a, Xor(b, c))
    {
      XorAssoc(a, b, c);
    }
  }

  lemma XorAssoc(a: bv32, b: bv32, c: bv32)
    ensures Xor(Xor(a, b), c) == Xor(a, Xor(b, c)) && Xor(a, 0) == a
  {
  }

  lemma RegisterInjective()
    ensures Injective(REGISTER)
  {
    forall a, b, c | a != b
      ensures Xor(a, c) != Xor(b, c) && Xor(c, a) != Xor(c, b)
    {
      XorInjective(a, b, c);
    }
    forall a, b | a != b
      ensures StepByte(a) != StepByte(b)
    {
      StepByteInjective(a, b);
    }
  }

  lemma XorInjective(a: bv32, b: bv32, c: bv32)
    requires a != b
    ensures Xor(a, c) != Xor(b, c) && Xor(c, a) != Xor(c, b)
  {
  }

  lemma RegisterShifts()
    ensures Shifts(REGISTER)
  {
    forall c, y | Fits(y, 3)
      ensures Xor(StepByte(c), y) == StepByte(Xor(c, ShiftByte(y)))
    {
      StepByteShifts(c, y);
    }
  }

  lemma FitsMore(w: bv32, k: nat)
    requires k < 4 && Fits(w, k)
    ensures Fits(w, 3)
  {
  }

  lemma RegisterPacks()
    ensures Packs(REGISTER)
  {
    forall b: bv8, w: bv32, k: nat {:trigger Fits(w, k), Low(b)} | k < 4 && Fits(w, k)
      ensures Fits(Xor(Low(b), ShiftByte(w)), k + 1)
    {
      PackedFits(b, w, k);
    }
    forall w: bv32, k: nat | k < 4 && Fits(w, k)
      ensures Fits(w, 3)
    {
      FitsMore(w, k);
    }
    forall b: bv8, c: bv8, v: bv32, w: bv32 | Fits(v, 3) && Fits(w, 3) && Xor(Low(b), ShiftByte(v)) == Xor(Low(c), ShiftByte(w))
      ensures b == c && v == w
    {
      PackedDiffer(b, c, v, w);
    }
  }

  /**
   * Inputs of equal length that differ only within four consecutive bytes, a single byte among them,
   * have different checksums.
   */
  lemma BurstDetected(before: seq<bv8>, s: seq<bv8>, t: seq<bv8>, after: seq<bv8>)
    requires |s| == |t| <= 4 && s != t
    ensures CrcOf(before + s + after) != CrcOf(before + t + after)
  {
    RegisterAdds();
    RegisterInjective();
    RegisterShifts();
    RegisterPacks();
    FoldBurst(REGISTER, ONES, before, s, t, after);
    XorInjective(Fold(REGISTER, ONES, before + s + after), Fold(REGISTER, ONES, before + t + after), ONES);
  }

  // ----- the published check value -----

  /** The eight bit steps of a byte, spelled out. */
  function EightSteps(c: bv32): bv32 {
    Step(Step(Step(Step(Step(Step(Step(Step(c))))))))
  }

  lemma StepByteIs(c: bv32)
    ensures StepByte(c) == EightSteps(c)
  {
    assert Iterate(Step, c, 1) == Step(c);
    assert Iterate(Step, c, 3) == Step(Step(Step(c)));
    assert Iterate(Step, c, 5) == Step(Step(Iterate(Step, c, 3)));
    assert Iterate(Step, c, 7) == Step(Step(Iterate(Step, c, 5)));
  }

  /** The register after each of the digits 1 to 9, from all ones. */
  const AFTER_DIGITS: seq<bv32> :=
    [0xFFFF_FFFF, 0x6F0A_661C, 0x8CAA_3B9F, 0xEF84_D04D, 0x09C5_0B11,
     0xE72E_DCCA, 0xBECA_8E79, 0xEDBD_6815, 0x9F78_7F65, 0x1CF9_6D7C]

  /** A byte takes the register from `c` to `d`. */
  predicate Through(c: bv32, b: bv8, d: bv32) {
    d == REGISTER.stepByte(REGISTER.xor(c, REGISTER.low(b)))
  }

  lemma ByteStep(c: bv32, b: bv8, x: bv32, d: bv32)
    requires c ^ b as bv32 == x && EightSteps(x) == d
    ensures Through(c, b, d)
  {
    StepByteIs(x);
  }

  const DIGITS: seq<bv8> := [0x31, 0x32, 0x33, 0x34, 0x35, 0x36, 0x37, 0x38, 0x39]

  /** The registers follow one another under the data. */
  ghost predicate Follows<R(!new)>(g: Register<R>, regs: seq<R>, data: seq<bv8>) {
    |regs| == |data| + 1 && forall i :: 0 <= i < |data| ==> regs[i + 1] == g.stepByte(g.xor(regs[i], g.low(data[i])))
  }

  lemma {:induction false} FoldFollows<R(!new)>(g: Register<R>, regs: seq<R>, data: seq<bv8>)
    requires Follows(g, regs, data)
    ensures Fold(g, regs[0], data) == regs[|data|]
    decreases |data|
  {
    if data != [] {
      FoldFollows(g, regs[1..], data[1..]);
    }
  }

  lemma FirstDigits()
    ensures Through(0xFFFF_FFFF, 0x31, 0x6F0A_661C)
    ensures Through(0x6F0A_661C, 0x32, 0x8CAA_3B9F)
    ensures Through(0x8CAA_3B9F, 0x33, 0xEF84_D04D)
  {
    ByteStep(0xFFFF_FFFF, 0x31, 0xFFFF_FFCE, 0x6F0A_661C);
    ByteStep(0x6F0A_661C, 0x32, 0x6F0A_662E, 0x8CAA_3B9F);
    ByteStep(0x8CAA_3B9F, 0x33, 0x8CAA_3BAC, 0xEF84_D04D);
  }

  lemma MiddleDigits()
    ensures Through(0xEF84_D04D, 0x34, 0x09C5_0B11)
    ensures Through(0x09C5_0B11, 0x35, 0xE72E_DCCA)
    ensures Through(0xE72E_DCCA, 0x36, 0xBECA_8E79)
  {
    ByteStep(0xEF84_D04D, 0x34, 0xEF84_D079, 0x09C5_0B11);
    ByteStep(0x09C5_0B11, 0x35, 0x09C5_0B24, 0xE72E_DCCA);
    ByteStep(0xE72E_DCCA, 0x36, 0xE72E_DCFC, 0xBECA_8E79);
  }

  lemma LastDigits()
    ensures Through(0xBECA_8E79, 0x37, 0xEDBD_6815)
    ensures Through(0xEDBD_6815, 0x38, 0x9F78_7F65)
    ensures Through(0x9F78_7F65, 0x39, 0x1CF9_6D7C)
  {
    ByteStep(0xBECA_8E79, 0x37, 0xBECA_8E4E, 0xEDBD_6815);
    ByteStep(0xEDBD_6815, 0x38, 0xEDBD_682D, 0x9F78_7F65);
    ByteStep(0x9F78_7F65, 0x39, 0x9F78_7F5C, 0x1CF9_6D7C);
  }

  /** The check value by which the polynomial, the reflection and the two inversions are known: CRC-32C of "123456789". */
  lemma CheckValue()
    ensures CrcOf([0x31, 0x32, 0x33, 0x34, 0x35, 0x36, 0x37, 0x38, 0x39]) == 0xE306_9283
  {
    FirstDigits();
    MiddleDigits();
    LastDigits();
    forall k: nat | k < 9
      ensures Through(AFTER_DIGITS[k], DIGITS[k], AFTER_DIGITS[k + 1])
    {
    }
    FoldFollows(REGISTER, AFTER_DIGITS, DIGITS);
  }
}
