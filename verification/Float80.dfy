/**
 The 80-bit software floating point of emu/float80.c, on exact integers.

 `unsigned __int128` values are naturals below 2^128, and every place where the C
 code drops bits says so with `%` or `/`.
 */
module Float80 {
  import opened PowersOfTwo

  type U64 = x: nat | x < T64
  type U128 = x: nat | x < T128
  type Exp15 = x: nat | x < 0x8000

  const BIAS80 := 0x3fff
  const EXP_MAX := 0x7ffe
  const EXP_MIN := 0x0001
  const EXP_SPECIAL := 0x7fff
  const EXP_DENORMAL := 0

  datatype Mode = Nearest | Down | Up | Chop

  datatype F80 = F80(signif: U64, exp: Exp15, sign: bool)

  const F80_NAN := F80(0xc000_0000_0000_0000, EXP_SPECIAL, false)
  const F80_INF := F80(T63, EXP_SPECIAL, false)

  // ----- classification -----

  predicate Supported(f: F80) {
    if f.exp == EXP_DENORMAL then f.signif < T63 else f.signif >= T63
  }

  predicate IsNan(f: F80) {
    f.exp == EXP_SPECIAL && f.signif % 0x8000_0000_0000_0000 != 0
  }

  predicate IsInf(f: F80) {
    f.exp == EXP_SPECIAL && f.signif % 0x8000_0000_0000_0000 == 0
  }

  predicate IsZero(f: F80) {
    f.exp == EXP_DENORMAL && f.signif == 0
  }

  /** A supported value that is neither infinite nor a NaN. */
  predicate Finite(f: F80) {
    Supported(f) && f.exp != EXP_SPECIAL
  }

  predicate Normal(f: F80) {
    Finite(f) && f.exp != EXP_DENORMAL
  }

  function Unbias(exp: int): int {
    exp - BIAS80
  }

  function UnbiasDenormal(exp: int): int {
    if exp == EXP_DENORMAL then Unbias(EXP_MIN) else Unbias(exp)
  }

  function Neg(f: F80): F80 {
    f.(sign := !f.sign)
  }

  // ----- rounding shifts -----

  predicate RoundsAway(sign: bool, mode: Mode) {
    (mode == Up && !sign) || (mode == Down && sign)
  }

  /** u128_shift_right_round. The bits below the guard bit are kept in a 64-bit variable. */
  function ShiftRightRound(i: U128, shift: nat, sign: bool, mode: Mode): (r: U128) {
    if shift == 0 then i
    else if shift > 127 then
      if RoundsAway(sign, mode) && i != 0 then 1 else 0
    else
      var guard := Shr(i, shift - 1) % 2;
      var rest := Low64(LowBits(i, shift - 1));
      var q := Shr(i, shift);
      if guard == 0 && rest == 0 then q
      else if RoundsAway(sign, mode) then q + 1
      else if mode == Nearest && guard == 1 then
        if rest != 0 || q % 2 == 1 then q + 1 else q
      else q
  }

  function Clz64(x: U64): (z: nat)
    ensures z <= 64
  {
    Pow2Words();
    BitLengthAtMost(x, 64);
    64 - BitLength(x)
  }

  function Clz128(x: U128): (z: nat)
    ensures z <= 128
  {
    Pow2DoubleWords();
    BitLengthAtMost(x, 128);
    128 - BitLength(x)
  }

  /** A significand that rounding may have carried out of 64 bits, put back into a float. */
  function Pack(k: U128, exp: Exp15, sign: bool): F80 {
    if k >= T64 then F80(Low64(k / 2), (exp + 1) % 0x8000, sign) else F80(k, exp, sign)
  }

  /** The last step of u128_normalize_round: keep the upper half, rounded. */
  function RoundToHigh(signif: U128, exp: Exp15, sign: bool, mode: Mode): F80 {
    Pack(ShiftRightRound(signif, 64, sign, mode), exp, sign)
  }

  function Overflowed(signif: U128, sign: bool, mode: Mode): F80 {
    if signif == T127 then F80_INF.(sign := sign)
    else if (mode == Up && sign) || (mode == Down && !sign) || mode == Chop then F80(T64 - 1, EXP_MAX, sign)
    else F80_INF.(sign := sign)
  }

  /** u128_normalize_round: the value is signif * 2^(exp - 127). */
  function NormalizeRound(signif: U128, exp: int, sign: bool, mode: Mode): F80 {
    var shift := Clz128(signif);
    if exp - shift < Unbias(EXP_MIN) then
      var s := if exp > Unbias(EXP_MIN) then Low128(Shl(signif, exp - Unbias(EXP_MIN)))
               else ShiftRightRound(signif, Unbias(EXP_MIN) - exp, sign, mode);
      RoundToHigh(s, EXP_DENORMAL, sign, mode)
    else if exp - shift > Unbias(EXP_MAX) then Overflowed(signif, sign, mode)
    else RoundToHigh(Low128(Shl(signif, shift)), exp - shift + BIAS80, sign, mode)
  }

  /** f80_normalize. */
  function Normalize(f: F80): F80 {
    if f.exp == EXP_DENORMAL then f
    else
      var shift := if f.signif != 0 then Clz64(f.signif) else 64;
      if f.exp - shift < EXP_MIN then
        F80(Low64(Shl(f.signif, f.exp - EXP_MIN)), EXP_DENORMAL, f.sign)
      else F80(Low64(Shl(f.signif, shift)), f.exp - shift, f.sign)
  }

  /** f80_shift_right. */
  function ShiftRight(f: F80, shift: nat, mode: Mode): F80 {
    F80(Low64(ShiftRightRound(f.signif, shift, f.sign, mode)), (f.exp + shift) % 0x8000, f.sign)
  }

  // ----- arithmetic -----

  datatype NanCheck = Answer(f: F80) | Proceed

  /** The handle_nans macro. */
  function HandleNans(a: F80, b: F80): NanCheck {
    if !Supported(a) || !Supported(b) then Answer(F80_NAN)
    else if IsNan(a) && IsNan(b) && a.sign && !b.sign then Answer(b)
    else if IsNan(a) then Answer(a)
    else if IsNan(b) then Answer(b)
    else Proceed
  }

  /** Sets bit 127. */
  function WithTopBit(x: U128): U128 {
    if x >= T127 then x else x + T127
  }

  function Add(x: F80, y: F80, mode: Mode): F80 {
    match HandleNans(x, y)
    case Answer(f) => f
    case Proceed =>
      if x.exp < y.exp then AddOrdered(y, x, mode) else AddOrdered(x, y, mode)
  }

  /**
   The rest of f80_add once `a` has the larger exponent. The C code flips both signs
   when `a` is negative, so that `a` counts as positive, and flips the result back.
   */
  function AddOrdered(a: F80, b: F80, mode: Mode): F80
    requires a.exp >= b.exp
  {
    var bSignif := ShiftRightRound(High(b.signif), a.exp - b.exp, b.sign, mode);
    if b.sign == a.sign then AddAligned(a, bSignif, mode) else SubtractAligned(a, b, bSignif, mode)
  }

  function AddAligned(a: F80, bSignif: U128, mode: Mode): F80 {
    var sum, exp := High(a.signif) + bSignif, UnbiasDenormal(a.exp);
    if IsInf(a) then NormalizeRound(High(a.signif), exp, a.sign, mode)
    else if sum >= T128 then
      NormalizeRound(WithTopBit(ShiftRightRound(sum - T128, 1, false, mode)), exp + 1, a.sign, mode)
    else NormalizeRound(sum, exp, a.sign, mode)
  }

  function SubtractAligned(a: F80, b: F80, bSignif: U128, mode: Mode): F80 {
    if IsInf(a) && IsInf(b) then F80_NAN
    else
      var taken := if IsInf(a) then 0 else if mode == Chop && bSignif == 0 && b.signif != 0 then 1 else bSignif;
      var negative := High(a.signif) < taken;
      var signif := if negative then taken - High(a.signif) else High(a.signif) - taken;
      if signif == 0 && a.signif != 0 && mode == Down then F80(0, 0, true)
      else if signif == 0 then F80(0, 0, false)
      else NormalizeRound(signif, UnbiasDenormal(a.exp), negative != a.sign, mode)
  }

  function Sub(a: F80, b: F80, mode: Mode): F80 {
    Add(a, Neg(b), mode)
  }

  function Mul(a: F80, b: F80, mode: Mode): F80 {
    match HandleNans(a, b)
    case Answer(f) => f
    case Proceed =>
      var sign := a.sign != b.sign;
      if IsInf(a) || IsInf(b) then
        if IsZero(a) || IsZero(b) then F80_NAN else F80_INF.(sign := sign)
      else
        NormalizeRound(Product(a.signif, b.signif), UnbiasDenormal(a.exp) + UnbiasDenormal(b.exp) + 1, sign,
            mode).(sign := sign)
  }

  function Product(x: U64, y: U64): (r: U128)
    ensures r == x * y
  {
    MulLe(x, y, T64 - 1, T64 - 1);
    x * y
  }

  /** The odd part of a nonzero significand, and how many trailing zeros it had. */
  function TrailingZeros(x: nat): (z: nat)
    requires x > 0
    decreases x
  {
    if x % 2 == 1 then 0 else 1 + TrailingZeros(x / 2)
  }

  /** The 128-bit quotient of f80_div and the number of bits it was extended by. */
  function Quotient(a: U64, b: U64): (q: (U128, nat))
    requires b > 0
  {
    QuotientBelow(a, b);
    Extend(Over(High(a), b), High(a) % b, b)
  }

  /** Shifts a quotient up to fill 128 bits, drawing the new bits from the remainder. */
  function Extend(first: U128, remainder: nat, b: U64): (q: (U128, nat))
    requires b > 0
  {
    if first == 0 then (0, 0)
    else
      var extra := Clz128(first);
      (Low128(Low128(Shl(first, extra)) + Over(Low128(Shl(remainder, extra)), b)), extra)
  }

  lemma QuotientBelow(a: U64, b: U64)
    requires b > 0
    ensures Over(High(a), b) < T128
  {
    var q := Over(High(a), b);
    MulLe(q, 1, q, b);
  }

  function Div(a: F80, b: F80, mode: Mode): F80 {
    match HandleNans(a, b)
    case Answer(f) => f
    case Proceed =>
      var sign := a.sign != b.sign;
      if IsInf(a) then (if IsInf(b) then F80_NAN else F80_INF.(sign := sign))
      else if IsInf(b) then F80(0, 0, sign)
      else if IsZero(b) then (if IsZero(a) then F80_NAN.(sign := sign) else F80_INF.(sign := sign))
      else if b.signif == 0 then F80_NAN  // not reached: a supported b with this significand is zero
      else
        var trailing := TrailingZeros(b.signif);
        OddPartPositive(b.signif);
        var (signif, extra) := Quotient(a.signif, Shr(b.signif, trailing));
        var exp := UnbiasDenormal(a.exp) - UnbiasDenormal(b.exp) + 63 - trailing - extra;
        NormalizeRound(signif, exp, sign, mode).(sign := sign)
  }

  lemma {:induction false} OddPartPositive(x: nat)
    requires x > 0
    ensures LowBits(x, TrailingZeros(x)) == 0
    ensures Shr(x, TrailingZeros(x)) % 2 == 1
    decreases x
  {
    if x % 2 == 0 {
      OddPartPositive(x / 2);
    }
  }

  // ----- comparison -----

  predicate Uncomparable(a: F80, b: F80) {
    !Supported(a) || !Supported(b) || IsNan(a) || IsNan(b)
  }

  predicate Lt(a: F80, b: F80, mode: Mode) {
    !Uncomparable(a, b) &&
    !(IsInf(a) && IsInf(b) && a.sign == b.sign) &&
    !(IsZero(a) && IsZero(b)) &&
    var diff := Sub(a, b, mode);
    diff.sign && !IsZero(diff)
  }

  predicate Eq(a: F80, b: F80) {
    !Uncomparable(a, b) &&
    var x := if IsZero(a) then a.(sign := false) else a;
    var y := if IsZero(x) then b.(sign := false) else b;
    x == y
  }
}
