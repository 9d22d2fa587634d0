/** V2 pool arithmetic on base units: minting, redeeming, pairing an amount, and slippage bounds. */
module Liquidity {
  import opened NumberText
  import opened Wrappers

  datatype LiquidityError = NotAWholeNumber | EmptyReserve | DivisionByZero

  const BASIS_POINTS: nat := 10_000

  function ToBigInt(value: string): Result<nat, LiquidityError> {
    if value != "" && IsNumeral(value, 10) then Ok(Value(value, 10)) else Err(NotAWholeNumber)
  }

  // ----- The arithmetic -----

  function Floor(n: nat, d: nat): nat
    requires 0 < d
  {
    n / d
  }

  // The LP units minted for a deposit into a pool that is not empty.
  function Minted(amount0: nat, amount1: nat, reserve0: nat, reserve1: nat, supply: nat): nat
    requires 0 < reserve0 && 0 < reserve1
  {
    var from0, from1 := Floor(amount0 * supply, reserve0), Floor(amount1 * supply, reserve1);
    if from0 < from1 then from0 else from1
  }

  function Redeemed(lp: nat, reserve: nat, supply: nat): nat
    requires 0 < supply
  {
    Floor(lp * reserve, supply)
  }

  function Paired(given: nat, givenReserve: nat, otherReserve: nat): nat
    requires 0 < givenReserve
  {
    Floor(given * otherReserve, givenReserve)
  }

  // ----- The text interface -----

  // None for an empty pool, whatever the amounts.
  function ExpectedLpAmount(amount0: string, amount1: string, reserve0: string, reserve1: string, supply: string)
    : Result<Option<string>, LiquidityError>
  {
    var s, r0, r1 := ToBigInt(supply), ToBigInt(reserve0), ToBigInt(reserve1);
    if s.Err? || r0.Err? || r1.Err? then Err(NotAWholeNumber)
    else if s.value == 0 || r0.value == 0 || r1.value == 0 then Ok(None)
    else
      var a0, a1 := ToBigInt(amount0), ToBigInt(amount1);
      if a0.Err? || a1.Err? then Err(NotAWholeNumber)
      else Ok(Some(Print(Minted(a0.value, a1.value, r0.value, r1.value, s.value), 10)))
  }

  function LpRedemption(lpAmount: string, reserve: string, totalSupply: string): Result<string, LiquidityError> {
    var lp, r, s := ToBigInt(lpAmount), ToBigInt(reserve), ToBigInt(totalSupply);
    if lp.Err? || r.Err? || s.Err? then Err(NotAWholeNumber)
    else if s.value == 0 then Err(DivisionByZero)
    else Ok(Print(Redeemed(lp.value, r.value, s.value), 10))
  }

  function PairAmount(given: string, givenReserve: string, otherReserve: string): Result<string, LiquidityError> {
    var a, from, to := ToBigInt(given), ToBigInt(givenReserve), ToBigInt(otherReserve);
    if a.Err? || from.Err? || to.Err? then Err(NotAWholeNumber)
    else if from.value == 0 then Err(EmptyReserve)
    else Ok(Print(Paired(a.value, from.value, to.value), 10))
  }

  // ----- Division -----

  // Floor is the largest q with q * d <= n.
  lemma FloorIs(n: nat, d: nat, q: nat)
    requires 0 < d
    ensures Floor(n, d) * d <= n < Floor(n, d) * d + d
    ensures q <= Floor(n, d) <==> q * d <= n
  {
    var f := n / d;
    if q <= f {
      Product(q, f, d);
    } else {
      MulStrict(f, q, d);
    }
  }

  lemma Product(a: nat, b: nat, c: nat)
    requires a <= b
    ensures a * c <= b * c
  {
  }

  // ----- Minting and redeeming -----

  /**
   * The minted amount is the largest that dilutes neither reserve: it satisfies both proportions, and no
   * larger amount does.
   */
  lemma MintIsTheLargestFair(amount0: nat, amount1: nat, reserve0: nat, reserve1: nat, supply: nat, lp: nat)
    requires 0 < reserve0 && 0 < reserve1
    ensures lp <= Minted(amount0, amount1, reserve0, reserve1, supply) <==>
            lp * reserve0 <= amount0 * supply && lp * reserve1 <= amount1 * supply
  {
    FloorIs(amount0 * supply, reserve0, lp);
    FloorIs(amount1 * supply, reserve1, lp);
    hide Floor;
  }

  // lp * r <= a * s, the fair proportion of one reserve.
  ghost predicate Fair(lp: nat, amount: nat, reserve: nat, supply: nat) { lp * reserve <= amount * supply }

  lemma RedeemsAtMostTheDeposit(lp: nat, amount: nat, reserve: nat, supply: nat)
    requires 0 < supply && Fair(lp, amount, reserve, supply)
    ensures Redeemed(lp, reserve, supply) <= amount
    ensures Redeemed(lp, reserve + amount, supply + lp) <= amount
  {
    hide Floor;
    FloorBelow(lp * reserve, supply, amount);
    Distribute(reserve, amount, lp);
    Distribute(supply, lp, amount);
    Commutes(lp, reserve);
    Commutes(amount, supply);
    Commutes(lp, reserve + amount);
    Commutes(amount, supply + lp);
    Commutes(lp, amount);
    FloorBelow(lp * (reserve + amount), supply + lp, amount);
  }

  lemma Commutes(a: nat, b: nat)
    ensures a * b == b * a
  {
  }

  lemma FloorBelow(n: nat, d: nat, q: nat)
    requires 0 < d && n <= q * d
    ensures Floor(n, d) <= q
  {
    hide Floor;
    FloorIs(n, d, q + 1);
    Distribute(q, 1, d);
  }

  lemma HolderKeepsValue(lp: nat, amount: nat, reserve: nat, supply: nat, held: nat)
    requires 0 < supply && Fair(lp, amount, reserve, supply)
    ensures reserve * (supply + lp) <= (reserve + amount) * supply
    ensures Redeemed(held, reserve, supply) <= Redeemed(held, reserve + amount, supply + lp)
  {
    hide Floor;
    var q := Redeemed(held, reserve, supply);
    FloorIs(held * reserve, supply, q);
    FloorIs(held * (reserve + amount), supply + lp, q);
    assert reserve * (supply + lp) == reserve * supply + lp * reserve;
    assert (reserve + amount) * supply == reserve * supply + amount * supply;
    LargerPool(q, held, reserve, supply, reserve + amount, supply + lp);
  }

  // q/held <= r/s <= r2/s2
  lemma LargerPool(q: nat, held: nat, r: nat, s: nat, r2: nat, s2: nat)
    requires 0 < s && q * s <= held * r && r * s2 <= r2 * s
    ensures q * s2 <= held * r2
  {
    Product(q * s, held * r, s2);
    Product(r * s2, r2 * s, held);
    assert (q * s2) * s == (q * s) * s2;
    assert (held * r) * s2 == (r * s2) * held;
    assert (held * r2) * s == (r2 * s) * held;
    if held * r2 < q * s2 {
      MulStrict(held * r2, q * s2, s);
    }
  }

  /**
   * For a pool that is not empty: redeeming the LP amount computed for a deposit returns at most the
   * deposit of each token, against the reserves and supply before or after the deposit; and the mint lowers
   * neither the reserve behind an LP unit nor what any holder can redeem.
   */
  lemma MintingIsSafe(amount0: nat, amount1: nat, reserve0: nat, reserve1: nat, supply: nat, held: nat)
    requires 0 < reserve0 && 0 < reserve1 && 0 < supply
    ensures var lp := Minted(amount0, amount1, reserve0, reserve1, supply);
            && Redeemed(lp, reserve0, supply) <= amount0
            && Redeemed(lp, reserve1, supply) <= amount1
            && Redeemed(lp, reserve0 + amount0, supply + lp) <= amount0
            && Redeemed(lp, reserve1 + amount1, supply + lp) <= amount1
            && reserve0 * (supply + lp) <= (reserve0 + amount0) * supply
            && reserve1 * (supply + lp) <= (reserve1 + amount1) * supply
            && Redeemed(held, reserve0, supply) <= Redeemed(held, reserve0 + amount0, supply + lp)
            && Redeemed(held, reserve1, supply) <= Redeemed(held, reserve1 + amount1, supply + lp)
  {
    hide Minted, Redeemed;
    var lp := Minted(amount0, amount1, reserve0, reserve1, supply);
    MintIsTheLargestFair(amount0, amount1, reserve0, reserve1, supply, lp);
    RedeemsAtMostTheDeposit(lp, amount0, reserve0, supply);
    RedeemsAtMostTheDeposit(lp, amount1, reserve1, supply);
    HolderKeepsValue(lp, amount0, reserve0, supply, held);
    HolderKeepsValue(lp, amount1, reserve1, supply, held);
  }

  // The text holds this number of base units.
  predicate Reads(text: string, n: nat) { ToBigInt(text) == Ok(n) }

  // Both redemptions are made, and the first returns at most the second.
  predicate RedeemsNoMore(first: Result<string, LiquidityError>, second: Result<string, LiquidityError>) {
    && first.Ok? && second.Ok? && ToBigInt(first.value).Ok? && ToBigInt(second.value).Ok?
    && ToBigInt(first.value).value <= ToBigInt(second.value).value
  }

  lemma RedeemsText(lp: string, reserve: string, supply: string, l: nat, r: nat, s: nat)
    requires Reads(lp, l) && Reads(reserve, r) && Reads(supply, s) && 0 < s
    ensures LpRedemption(lp, reserve, supply) == Ok(Print(Redeemed(l, r, s), 10))
    ensures ToBigInt(Print(Redeemed(l, r, s), 10)) == Ok(Redeemed(l, r, s))
  {
    PrintedIsRead(Redeemed(l, r, s));
  }

  /**
   * The same, on the text the functions take and return: the computed LP amount redeems at most the deposit
   * against the reserves before or after it, and what a holder can redeem does not fall.
   */
  lemma ExpectedLpRedeemsAtMostTheDeposit(
    amount0: string, amount1: string, reserve0: string, reserve1: string, supply: string,
    reserve0After: string, reserve1After: string, supplyAfter: string, held: string)
    requires ExpectedLpAmount(amount0, amount1, reserve0, reserve1, supply).Ok?
    requires ExpectedLpAmount(amount0, amount1, reserve0, reserve1, supply).value.Some?
    requires Reads(reserve0After, ToBigInt(reserve0).value + ToBigInt(amount0).value)
    requires Reads(reserve1After, ToBigInt(reserve1).value + ToBigInt(amount1).value)
    requires var lp := ExpectedLpAmount(amount0, amount1, reserve0, reserve1, supply).value.value;
             ToBigInt(lp).Ok? ==> Reads(supplyAfter, ToBigInt(supply).value + ToBigInt(lp).value)
    requires ToBigInt(held).Ok?
    ensures var lp := ExpectedLpAmount(amount0, amount1, reserve0, reserve1, supply).value.value;
            && ToBigInt(lp).Ok?
            && RedeemsNoMore(LpRedemption(lp, reserve0, supply), Ok(amount0))
            && RedeemsNoMore(LpRedemption(lp, reserve1, supply), Ok(amount1))
            && RedeemsNoMore(LpRedemption(lp, reserve0After, supplyAfter), Ok(amount0))
            && RedeemsNoMore(LpRedemption(lp, reserve1After, supplyAfter), Ok(amount1))
            && RedeemsNoMore(LpRedemption(held, reserve0, supply), LpRedemption(held, reserve0After, supplyAfter))
            && RedeemsNoMore(LpRedemption(held, reserve1, supply), LpRedemption(held, reserve1After, supplyAfter))
  {
    hide Minted, Redeemed, Print, ToBigInt, LpRedemption;
    var a0, a1 := ToBigInt(amount0).value, ToBigInt(amount1).value;
    var r0, r1, s := ToBigInt(reserve0).value, ToBigInt(reserve1).value, ToBigInt(supply).value;
    var h := ToBigInt(held).value;
    MintingIsSafe(a0, a1, r0, r1, s, h);
    var lp := Minted(a0, a1, r0, r1, s);
    var text := Print(lp, 10);
    PrintedIsRead(lp);
    RedeemsText(text, reserve0, supply, lp, r0, s);
    RedeemsText(text, reserve1, supply, lp, r1, s);
    RedeemsText(text, reserve0After, supplyAfter, lp, r0 + a0, s + lp);
    RedeemsText(text, reserve1After, supplyAfter, lp, r1 + a1, s + lp);
    RedeemsText(held, reserve0, supply, h, r0, s);
    RedeemsText(held, reserve1, supply, h, r1, s);
    RedeemsText(held, reserve0After, supplyAfter, h, r0 + a0, s + lp);
    RedeemsText(held, reserve1After, supplyAfter, h, r1 + a1, s + lp);
  }

  lemma PrintedIsRead(n: nat)
    ensures ToBigInt(Print(n, 10)) == Ok(n)
  {
    PrintReadsBack(n, 10);
  }

  // One or more decimal digits.
  predicate IsWhole(s: string) { s != "" && forall i :: 0 <= i < |s| ==> '0' <= s[i] <= '9' }

  lemma WholeIff(s: string)
    ensures ToBigInt(s).Ok? <==> IsWhole(s)
    ensures !IsWhole(s) ==> ToBigInt(s) == Err(NotAWholeNumber)
  {
    if IsNumeral(s, 10) {
      forall i | 0 <= i < |s| ensures '0' <= s[i] <= '9' {
        assert IsDigit(s[i], 10);
      }
    }
  }

  /**
   * The LP amount of a deposit: an empty pool has none, whatever the amounts are. Otherwise all five texts
   * must be whole numbers, and the result is the largest number that keeps both proportions.
   */
  lemma LpAmountOutcome(
    amount0: string, amount1: string, reserve0: string, reserve1: string, supply: string, k: nat)
    ensures var lp := ExpectedLpAmount(amount0, amount1, reserve0, reserve1, supply);
            var wholePool := IsWhole(supply) && IsWhole(reserve0) && IsWhole(reserve1);
            var empty := wholePool && (Reads(supply, 0) || Reads(reserve0, 0) || Reads(reserve1, 0));
            && (lp == Ok(None) <==> empty)
            && (lp == Err(NotAWholeNumber) <==> !wholePool || (!empty && !(IsWhole(amount0) && IsWhole(amount1))))
            && (lp.Err? ==> lp == Err(NotAWholeNumber))
            && (lp.Ok? && lp.value.Some? ==>
               && WrittenWhole(lp.value.value)
               && (k <= ToBigInt(lp.value.value).value <==>
                  && k * ToBigInt(reserve0).value <= ToBigInt(amount0).value * ToBigInt(supply).value
                  && k * ToBigInt(reserve1).value <= ToBigInt(amount1).value * ToBigInt(supply).value))
  {
    hide Minted, Print, ToBigInt, IsWhole, WrittenWhole;
    WholeIff(amount0);
    WholeIff(amount1);
    WholeIff(reserve0);
    WholeIff(reserve1);
    WholeIff(supply);
    var lp := ExpectedLpAmount(amount0, amount1, reserve0, reserve1, supply);
    if lp.Ok? && lp.value.Some? {
      var a0, a1 := ToBigInt(amount0).value, ToBigInt(amount1).value;
      var r0, r1, s := ToBigInt(reserve0).value, ToBigInt(reserve1).value, ToBigInt(supply).value;
      WrittenIsRead(Minted(a0, a1, r0, r1, s));
      MintIsTheLargestFair(a0, a1, r0, r1, s, k);
    }
  }

  // A whole number as it is printed, without leading zeros.
  predicate WrittenWhole(s: string) {
    ToBigInt(s).Ok? && IsCanonical(s, 10)
  }

  lemma WrittenIsRead(n: nat)
    ensures WrittenWhole(Print(n, 10)) && ToBigInt(Print(n, 10)) == Ok(n)
  {
    PrintReadsBack(n, 10);
    PrintShape(n, 10);
  }

  /** A redemption divides by the supply: a supply of zero fails, and otherwise the share is rounded down. */
  lemma RedemptionOutcome(lpAmount: string, reserve: string, totalSupply: string)
    ensures var redeemed := LpRedemption(lpAmount, reserve, totalSupply);
            var whole := IsWhole(lpAmount) && IsWhole(reserve) && IsWhole(totalSupply);
            && (redeemed == Err(NotAWholeNumber) <==> !whole)
            && (redeemed == Err(DivisionByZero) <==> whole && Reads(totalSupply, 0))
            && (redeemed.Err? ==> redeemed.error in {NotAWholeNumber, DivisionByZero})
            && (redeemed.Ok? ==>
               && WrittenWhole(redeemed.value)
               && ToBigInt(redeemed.value).value * ToBigInt(totalSupply).value
                  <= ToBigInt(lpAmount).value * ToBigInt(reserve).value
                  < (ToBigInt(redeemed.value).value + 1) * ToBigInt(totalSupply).value)
  {
    hide Floor, Print, ToBigInt, IsWhole;
    WholeIff(lpAmount);
    WholeIff(reserve);
    WholeIff(totalSupply);
    var redeemed := LpRedemption(lpAmount, reserve, totalSupply);
    if redeemed.Ok? {
      DividedText(ToBigInt(lpAmount).value * ToBigInt(reserve).value, ToBigInt(totalSupply).value);
    }
  }

  lemma DividedText(n: nat, d: nat)
    requires 0 < d
    ensures WrittenWhole(Print(Floor(n, d), 10)) && ToBigInt(Print(Floor(n, d), 10)) == Ok(Floor(n, d))
    ensures Floor(n, d) * d <= n < (Floor(n, d) + 1) * d
  {
    hide Floor, Print, ToBigInt, WrittenWhole;
    WrittenIsRead(Floor(n, d));
    FloorIs(n, d, 0);
    Distribute(Floor(n, d), 1, d);
  }

  // ----- Pairing -----

  /**
   * Pairing an amount across and back never exceeds the original, and loses less than one unit plus what
   * one unit of the other token is worth.
   */
  lemma PairingBackAndForth(given: nat, reserve: nat, other: nat)
    requires 0 < reserve && 0 < other
    ensures var back := Paired(Paired(given, reserve, other), other, reserve);
            back <= given && given * other < back * other + other + reserve
  {
    hide Floor;
    var there := Paired(given, reserve, other);
    var back := Paired(there, other, reserve);
    FloorIs(given * other, reserve, there);
    FloorIs(there * reserve, other, given + 1);
    assert (given + 1) * other == given * other + other;
  }

  /** Pairing fails on an empty reserve of the given token; otherwise the other side is rounded down. */
  lemma PairingOutcome(given: string, givenReserve: string, otherReserve: string)
    ensures var paired := PairAmount(given, givenReserve, otherReserve);
            var whole := IsWhole(given) && IsWhole(givenReserve) && IsWhole(otherReserve);
            && (paired == Err(NotAWholeNumber) <==> !whole)
            && (paired == Err(EmptyReserve) <==> whole && Reads(givenReserve, 0))
            && (paired.Err? ==> paired.error in {NotAWholeNumber, EmptyReserve})
            && (paired.Ok? ==>
               && WrittenWhole(paired.value)
               && ToBigInt(paired.value).value * ToBigInt(givenReserve).value
                  <= ToBigInt(given).value * ToBigInt(otherReserve).value
                  < (ToBigInt(paired.value).value + 1) * ToBigInt(givenReserve).value)
  {
    hide Floor, Print, ToBigInt, IsWhole;
    WholeIff(given);
    WholeIff(givenReserve);
    WholeIff(otherReserve);
    if PairAmount(given, givenReserve, otherReserve).Ok? {
      DividedText(ToBigInt(given).value * ToBigInt(otherReserve).value, ToBigInt(givenReserve).value);
    }
  }

  /** On text: an amount paired across and back is at most the amount given. */
  lemma PairedBackIsAtMostTheGiven(given: string, reserve: string, other: string)
    requires PairAmount(given, reserve, other).Ok? && ToBigInt(other).value != 0
    ensures var back := PairAmount(PairAmount(given, reserve, other).value, other, reserve);
            back.Ok? && ToBigInt(back.value).Ok? && ToBigInt(back.value).value <= ToBigInt(given).value
  {
    hide Paired, Print, ToBigInt;
    var a, from, to := ToBigInt(given).value, ToBigInt(reserve).value, ToBigInt(other).value;
    PairingBackAndForth(a, from, to);
    PrintedIsRead(Paired(a, from, to));
    PrintedIsRead(Paired(Paired(a, from, to), to, from));
  }

  /** A deposit paired by the reserves mints by the derived amount: the given one is never the smaller side. */
  lemma PairedDepositMintsByTheDerivedSide(given: nat, reserve: nat, other: nat, supply: nat)
    requires 0 < reserve && 0 < other
    ensures var derived := Paired(given, reserve, other);
            Minted(given, derived, reserve, other, supply) == Floor(derived * supply, other)
  {
    hide Floor;
    var derived := Paired(given, reserve, other);
    var minted := Floor(derived * supply, other);
    FloorIs(given * other, reserve, derived);
    FloorIs(derived * supply, other, minted);
    LargerPool(minted, supply, derived, other, given, reserve);
    FloorIs(given * supply, reserve, minted);
    assert supply * derived == derived * supply && supply * given == given * supply;
  }

  // ----- Slippage -----

  // BigInt division truncates toward zero.
  function ApplyMinimumShare(amount: nat, basisPoints: int): int {
    if basisPoints < 0 then 0 - Floor(amount * (0 - basisPoints), BASIS_POINTS)
    else Floor(amount * basisPoints, BASIS_POINTS)
  }

  function LowerBySlippage(amount: nat, bips: nat): int { ApplyMinimumShare(amount, BASIS_POINTS - bips) }

  function RaiseBySlippage(amount: nat, bips: nat): int {
    if bips == 0 then amount else ApplyMinimumShare(amount, BASIS_POINTS + bips)
  }

  lemma Regroup(a: nat, b: nat, c: nat)
    ensures (a * b) * c == (a * c) * b == a * (b * c)
  {
  }

  lemma SquareBound(base: nat, bips: nat)
    requires bips <= base
    ensures (base + bips) * (base - bips) <= base * base
  {
    assert (base + bips) * (base - bips) == base * base - bips * bips;
  }

  // amount * s * rest <= amount * base * base
  lemma SharesShrink(amount: nat, s: nat, rest: nat, base: nat)
    requires s * rest <= base * base
    ensures (amount * s) * rest <= (amount * base) * base
  {
    Regroup(amount, s, rest);
    Regroup(amount, base, base);
    Product(s * rest, base * base, amount);
  }

  lemma Divide(x: nat, y: nat, base: nat)
    requires 0 < base && x * base <= y * base
    ensures x <= y
  {
    if y < x {
      MulStrict(y, x, base);
    }
  }

  // raised <= amount * (base + bips) / base, so raised * (base - bips) <= amount * base.
  lemma RaisedShare(amount: nat, raised: nat, base: nat, bips: nat)
    requires 0 < base && bips <= base && raised * base <= amount * (base + bips)
    ensures raised * (base - bips) <= amount * base
  {
    var s, rest := base + bips, base - bips;
    SquareBound(base, bips);
    RaisedBy(amount, raised, base, s, rest);
  }

  lemma RaisedBy(amount: nat, raised: nat, base: nat, s: nat, rest: nat)
    requires 0 < base && s * rest <= base * base && raised * base <= amount * s
    ensures raised * rest <= amount * base
  {
    SharesShrink(amount, s, rest, base);
    Product(raised * base, amount * s, rest);
    Regroup(raised, base, rest);
    Divide(raised * rest, amount * base, base);
  }

  lemma RaisedThenLowered(amount: nat, raised: nat, base: nat, bips: nat)
    requires 0 < base && bips <= base
    requires raised == if bips == 0 then amount else Floor(amount * (base + bips), base)
    ensures Floor(raised * (base - bips), base) <= amount
  {
    hide Floor;
    if bips != 0 {
      FloorIs(amount * (base + bips), base, raised);
    }
    RaisedShare(amount, raised, base, bips);
    FloorIs(raised * (base - bips), base, amount + 1);
    Distribute(amount, 1, base);
  }

  lemma RaiseThenLower(amount: nat, bips: nat)
    ensures 0 <= RaiseBySlippage(amount, bips)
    ensures bips <= BASIS_POINTS ==> LowerBySlippage(RaiseBySlippage(amount, bips), bips) <= amount
  {
    hide Floor;
    if bips <= BASIS_POINTS {
      RaisedThenLowered(amount, RaiseBySlippage(amount, bips), BASIS_POINTS, bips);
    }
  }

  lemma LoweredShare(amount: nat, bips: nat)
    ensures var lower := LowerBySlippage(amount, bips);
            && (bips <= 10_000 ==>
               0 <= lower <= amount && lower * 10_000 <= amount * (10_000 - bips) < lower * 10_000 + 10_000)
            && (10_000 < bips ==>
               lower <= 0 && (0 - lower) * 10_000 <= amount * (bips - 10_000) < (0 - lower) * 10_000 + 10_000)
            && (0 <= lower <= amount <==> bips <= 10_000 || amount * (bips - 10_000) < 10_000)
  {
    hide Floor;
    if bips <= BASIS_POINTS {
      FloorIs(amount * (BASIS_POINTS - bips), BASIS_POINTS, amount + 1);
      Product(BASIS_POINTS - bips, BASIS_POINTS, amount);
    } else {
      FloorIs(amount * (bips - BASIS_POINTS), BASIS_POINTS, 1);
    }
  }

  lemma RaisedFloor(amount: nat, bips: nat)
    ensures var raised := RaiseBySlippage(amount, bips);
            0 <= amount <= raised && raised * 10_000 <= amount * (10_000 + bips) < raised * 10_000 + 10_000
  {
    hide Floor;
    FloorIs(amount * (BASIS_POINTS + bips), BASIS_POINTS, amount);
    Distribute(BASIS_POINTS, bips, amount);
  }

  /**
   * Lowering and raising take the share of the amount in ten-thousandths, rounded toward zero. The lowered
   * amount is a bound between zero and the expected amount exactly when the tolerance is at most 100% (or the
   * excess rounds away); the raised amount never falls below the expected one; and raising then lowering
   * never gains.
   */
  lemma SlippageBounds(amount: nat, bips: nat)
    ensures var lower := LowerBySlippage(amount, bips);
            && (bips <= 10_000 ==>
               0 <= lower && lower * 10_000 <= amount * (10_000 - bips) < lower * 10_000 + 10_000)
            && (10_000 < bips ==>
               lower <= 0 && (0 - lower) * 10_000 <= amount * (bips - 10_000) < (0 - lower) * 10_000 + 10_000)
            && (0 <= lower <= amount <==> bips <= 10_000 || amount * (bips - 10_000) < 10_000)
    ensures var raised := RaiseBySlippage(amount, bips);
            && raised * 10_000 <= amount * (10_000 + bips) < raised * 10_000 + 10_000
            && 0 <= amount <= raised
            && (bips <= 10_000 ==> LowerBySlippage(raised, bips) <= amount)
  {
    hide LowerBySlippage, RaiseBySlippage;
    LoweredShare(amount, bips);
    RaisedFloor(amount, bips);
    RaiseThenLower(amount, bips);
  }
}
