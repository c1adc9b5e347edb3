/** What correct rounding means, and when the rounding shift of emu/float80.c achieves it. */
module Float80Rounding {
  import opened PowersOfTwo
  import opened Float80

  /** `n` rounds to the multiple `m` of `d`; `even` tells whether `m` is an even multiple. */
  ghost predicate RoundsToMultiple(n: int, d: int, m: int, even: bool, sign: bool, mode: Mode) {
    if RoundsAway(sign, mode) then m - d < n <= m
    else if mode == Nearest then -d <= 2 * (n - m) <= d && (even || -d < 2 * (n - m) < d)
    else m <= n < m + d
  }

  /** `k` is `n / d` rounded to an integer; `sign` tells which way up and down are for the magnitude. */
  ghost predicate RoundsTo(n: nat, d: nat, sign: bool, mode: Mode, k: nat) {
    RoundsToMultiple(n, d, k * d, k % 2 == 0, sign, mode)
  }

  /**
   The inputs on which keeping the shifted-out bits in 64 bits, or dropping them
   altogether beyond 127, gives the wrong answer.
   */
  predicate LosesBits(i: U128, shift: nat, sign: bool, mode: Mode) {
    || (&& 66 <= shift <= 127
        && LowBits(i, shift - 1) != 0
        && Low64(LowBits(i, shift - 1)) == 0
        && if Shr(i, shift - 1) % 2 == 0 then RoundsAway(sign, mode) else mode == Nearest && Shr(i, shift) % 2 == 0)
    || (shift == 128 && mode == Nearest && i > T127)
  }

  /** Does the shift round up, given the guard bit, what is kept of the bits below it, and the kept part's parity? */
  predicate RoundsUp(guard: nat, rest: nat, odd: bool, sign: bool, mode: Mode) {
    (guard != 0 || rest != 0) &&
    (RoundsAway(sign, mode) || (mode == Nearest && guard == 1 && (rest != 0 || odd)))
  }

  lemma ShiftRightRoundCases(i: U128, shift: nat, sign: bool, mode: Mode)
    requires 1 <= shift <= 127
    ensures var guard, rest := Shr(i, shift - 1) % 2, Low64(LowBits(i, shift - 1));
            ShiftRightRound(i, shift, sign, mode) ==
            Shr(i, shift) + if RoundsUp(guard, rest, Shr(i, shift) % 2 == 1, sign, mode) then 1 else 0
  {
  }

  /** The linear core: `n` is `m` plus a guard bit worth `p` plus `low`, and `rest` is what is kept of `low`. */
  lemma RoundsUpIff(n: int, m: int, p: int, guard: nat, low: int, rest: nat, odd: bool, sign: bool, mode: Mode)
    requires 0 <= low < p && guard < 2
    requires n == m + low + (if guard == 1 then p else 0)
    requires low == 0 ==> rest == 0
    ensures var up := RoundsUp(guard, rest, odd, sign, mode);
            RoundsToMultiple(n, 2 * p, if up then m + 2 * p else m, up == odd, sign, mode) <==>
            !(low != 0 && rest == 0 && if guard == 0 then RoundsAway(sign, mode) else mode == Nearest && !odd)
  {
  }

  /** u128_shift_right_round rounds correctly on all inputs but exactly those. */
  lemma ShiftRightRoundsIff(i: U128, shift: nat, sign: bool, mode: Mode)
    ensures RoundsTo(i, Pow2(shift), sign, mode, ShiftRightRound(i, shift, sign, mode)) <==>
            !LosesBits(i, shift, sign, mode)
  {
    if 1 <= shift <= 127 {
      NearShiftRoundsIff(i, shift, sign, mode);
    } else if shift > 127 {
      Pow2DoubleWords();
      FarShiftRoundsIff(i, shift, sign, mode);
    }
  }

  lemma NearShiftRoundsIff(i: U128, shift: nat, sign: bool, mode: Mode)
    requires 1 <= shift <= 127
    ensures RoundsTo(i, Pow2(shift), sign, mode, ShiftRightRound(i, shift, sign, mode)) <==>
            !LosesBits(i, shift, sign, mode)
  {
    hide ShiftRightRound, LosesBits, RoundsUp, Pow2, Shr, LowBits;
    var h, p, low, guard := Shr(i, shift), Pow2(shift - 1), LowBits(i, shift - 1), Shr(i, shift - 1) % 2;
    var odd := h % 2 == 1;
    var up := RoundsUp(guard, Low64(low), odd, sign, mode);
    var m := NearShiftParts(i, shift);
    ShiftRightRoundCases(i, shift, sign, mode);
    ShiftedMultiple(h, Pow2(shift), up);
    assert RoundsTo(i, Pow2(shift), sign, mode, ShiftRightRound(i, shift, sign, mode)) <==>
           RoundsToMultiple(i, 2 * p, if up then m + 2 * p else m, up == odd, sign, mode);
    LosesBitsCases(i, shift, sign, mode);
    RoundsUpIff(i, m, p, guard, low, Low64(low), odd, sign, mode);
  }

  lemma NearShiftParts(i: U128, shift: nat) returns (m: nat)
    requires 1 <= shift
    ensures m == Shr(i, shift) * Pow2(shift) && Pow2(shift) == 2 * Pow2(shift - 1)
    ensures i == m + LowBits(i, shift - 1) + (if Shr(i, shift - 1) % 2 == 1 then Pow2(shift - 1) else 0)
  {
    SplitBits(i, shift);
    ShrStep(i, shift - 1);
    m := Shr(i, shift) * Pow2(shift);
  }

  lemma ShiftedMultiple(h: nat, d: nat, up: bool)
    ensures (h + if up then 1 else 0) * d == (if up then h * d + d else h * d)
    ensures ((h + if up then 1 else 0) % 2 == 0) == (up == (h % 2 == 1))
  {
    NextMultiple(h, d);
  }

  lemma LosesBitsCases(i: U128, shift: nat, sign: bool, mode: Mode)
    requires 1 <= shift <= 127
    ensures LosesBits(i, shift, sign, mode) <==>
            && LowBits(i, shift - 1) != 0 && Low64(LowBits(i, shift - 1)) == 0
            && if Shr(i, shift - 1) % 2 == 0 then RoundsAway(sign, mode) else mode == Nearest && Shr(i, shift) % 2 == 0
  {
    LowBitsKept(i, shift);
  }

  lemma NextMultiple(h: int, d: int)
    ensures (h + 1) * d == h * d + d
  {
  }

  lemma LowBitsKept(i: U128, shift: nat)
    requires 1 <= shift
    ensures shift <= 65 || i < T64 ==> Low64(LowBits(i, shift - 1)) == LowBits(i, shift - 1)
  {
    if shift <= 65 {
      Pow2Words();
      Pow2Monotone(shift - 1, 64);
    }
  }

  lemma FarShiftRoundsIff(i: U128, shift: nat, sign: bool, mode: Mode)
    requires shift > 127
    ensures RoundsTo(i, Pow2(shift), sign, mode, ShiftRightRound(i, shift, sign, mode)) <==>
            !LosesBits(i, shift, sign, mode)
  {
    Pow2DoubleWords();
    Pow2Monotone(128, shift);
  }

  /** In particular it is exact for 64-bit values and for shifts up to 65. */
  lemma ShiftRightRounds(i: U128, shift: nat, sign: bool, mode: Mode)
    requires i < T64 || shift <= 65
    ensures RoundsTo(i, Pow2(shift), sign, mode, ShiftRightRound(i, shift, sign, mode))
  {
    ShiftRightRoundsIff(i, shift, sign, mode);
    if shift >= 1 {
      LowBitsKept(i, shift);
    }
  }

  /** A quarter, rounded up, gives zero: the one bit that should round it is shifted out of sight. */
  lemma ShiftLosesBits()
    ensures ShiftRightRound(T64, 66, false, Up) == 0
    ensures !RoundsTo(T64, Pow2(66), false, Up, ShiftRightRound(T64, 66, false, Up))
  {
    hide Shr, LowBits, Pow2, ShiftRightRound;
    TwoMorePlaces();
    SplitBits(T64, 65);
    SplitBits(T64, 66);
    SmallFactor(Shr(T64, 65), Pow2(65), T64);
    SmallFactor(Shr(T64, 66), Pow2(66), T64);
    ShiftRightRoundCases(T64, 66, false, Up);
  }

  lemma TwoMorePlaces()
    ensures Pow2(65) == 2 * T64 && Pow2(66) == 4 * T64
  {
    Pow2Words();
    assert Pow2(66) == 2 * Pow2(65);
  }

  lemma SmallFactor(q: nat, d: nat, x: nat)
    requires q * d <= x < d
    ensures q == 0
  {
    MultipleBound(q, d);
  }

  // ----- multiples -----

  lemma MulMonotone(u: int, v: int, b: int)
    requires u <= v && b >= 0
    ensures u * b <= v * b
  {
    assert (v - u) * b >= 0;
  }

  /** Bounds on a multiple of `b` for the factors that rounding a 64-bit fraction meets. */
  lemma ScaledBounds(u: int, b: int)
    requires b > 0
    ensures u >= 1 ==> u * b >= b
    ensures u <= -1 ==> u * b <= -b
    ensures u < T64 ==> u * b <= 0x1_0000_0000_0000_0000 * b - b
    ensures u > -T64 ==> u * b >= b - 0x1_0000_0000_0000_0000 * b
    ensures u < T63 ==> u * b <= 0x8000_0000_0000_0000 * b - b
    ensures u >= -T63 ==> u * b >= -0x8000_0000_0000_0000 * b
    ensures u > -T63 ==> u * b >= b - 0x8000_0000_0000_0000 * b
    ensures u == 0 ==> u * b == 0
    ensures u == T63 ==> u * b == 0x8000_0000_0000_0000 * b
  {
    if u < T64 {
      MulMonotone(u, 0xffff_ffff_ffff_ffff, b);
    }
    if u > -T64 {
      MulMonotone(-0xffff_ffff_ffff_ffff, u, b);
    }
    if u < T63 {
      MulMonotone(u, 0x7fff_ffff_ffff_ffff, b);
    }
    if u >= -T63 {
      MulMonotone(-0x8000_0000_0000_0000, u, b);
    }
    if u > -T63 {
      MulMonotone(-0x7fff_ffff_ffff_ffff, u, b);
    }
    if u == T63 {
      MulMonotone(0x8000_0000_0000_0000, u, b);
      MulMonotone(u, 0x8000_0000_0000_0000, b);
    }
  }

  lemma SubTimes(s: int, m: int, b: int)
    ensures (s - m) * b == s * b - m * b
  {
  }
}
