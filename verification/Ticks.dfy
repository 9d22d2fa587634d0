/** Tick grids of V3 and V4 pools: aligning a tick, the default range, and the check on a given boundary. */
module Ticks {
  import NumberText
  import opened Wrappers

  datatype TickError = OutOfBounds | NotAligned | EmptyRange

  const MIN_TICK: int := -887272
  const MAX_TICK: int := 887272
  const DEFAULT_RANGE_SPACINGS: int := 100

  // Math.floor and Math.round of a / b for b > 0; exact halves round toward +infinity.
  function FloorOf(a: int, b: nat): (q: int)
    requires 0 < b
    ensures q * b <= a < q * b + b
  {
    a / b
  }

  function RoundOf(a: int, b: nat): int
    requires 0 < b
  {
    FloorOf(2 * a + b, 2 * b)
  }

  // Math.ceil
  function CeilOf(a: int, b: nat): int
    requires 0 < b
  {
    -FloorOf(-a, b)
  }

  function ClampAligned(tick: int, spacing: nat): int
    requires 0 < spacing
  {
    if MAX_TICK < tick then FloorOf(MAX_TICK, spacing) * spacing
    else if tick < MIN_TICK then CeilOf(MIN_TICK, spacing) * spacing
    else tick
  }

  function AlignTick(tick: int, spacing: nat): int
    requires 0 < spacing
  {
    ClampAligned(RoundOf(tick, spacing) * spacing, spacing)
  }

  function DefaultTickRange(currentTick: int, spacing: nat): (int, int)
    requires 0 < spacing
  {
    var centre := AlignTick(currentTick, spacing);
    var span := DEFAULT_RANGE_SPACINGS * spacing;
    (ClampAligned(centre - span, spacing), ClampAligned(centre + span, spacing))
  }

  function AssertAligned(tick: int, spacing: nat): Result<int, TickError>
    requires 0 < spacing
  {
    if tick < MIN_TICK || MAX_TICK < tick then Err(OutOfBounds)
    else if tick % spacing != 0 then Err(NotAligned)
    else Ok(tick)
  }

  function AssertRange(tickLower: int, tickUpper: int): Result<(int, int), TickError> {
    if tickUpper <= tickLower then Err(EmptyRange) else Ok((tickLower, tickUpper))
  }

  // ----- The grid -----

  // A grid point of the spacing within the contract's bounds.
  ghost predicate OnGrid(tick: int, spacing: nat) {
    MIN_TICK <= tick <= MAX_TICK && exists k: int :: tick == k * spacing
  }

  /** The check on a boundary accepts exactly the grid points within the bounds, unchanged. */
  lemma AcceptedIffOnGrid(tick: int, spacing: nat)
    requires 0 < spacing
    ensures AssertAligned(tick, spacing).Ok? <==> OnGrid(tick, spacing)
    ensures AssertAligned(tick, spacing).Ok? ==> AssertAligned(tick, spacing).value == tick
  {
    QuotientAndRemainder(tick, spacing);
    if OnGrid(tick, spacing) {
      var k :| tick == k * spacing;
      MultipleHasNoRemainder(tick, k, spacing);
    }
  }

  lemma Multiples(a: int, b: int, spacing: nat)
    requires a < b
    ensures a * spacing + spacing <= b * spacing
  {
    var between: nat := b - a - 1;
    NumberText.Distribute(a, between + 1, spacing);
    NumberText.Distribute(between, 1, spacing);
  }

  lemma MultipleHasNoRemainder(tick: int, k: int, spacing: nat)
    requires 0 < spacing && tick == k * spacing
    ensures tick % spacing == 0
  {
    hide FloorOf;
    var q := FloorOf(tick, spacing);
    if k < q {
      Multiples(k, q, spacing);
    } else if q < k {
      Multiples(q, k, spacing);
    }
    QuotientAndRemainder(tick, spacing);
  }

  lemma QuotientAndRemainder(tick: int, spacing: nat)
    requires 0 < spacing
    ensures tick == FloorOf(tick, spacing) * spacing + tick % spacing
  {
  }

  // The outermost grid points: no grid point within the bounds lies beyond them, and every one outside is
  // at least one spacing further.
  lemma Edges(spacing: nat, k: int)
    requires 0 < spacing
    ensures CeilOf(MIN_TICK, spacing) == -FloorOf(MAX_TICK, spacing)
    ensures OnGrid(FloorOf(MAX_TICK, spacing) * spacing, spacing)
    ensures OnGrid(CeilOf(MIN_TICK, spacing) * spacing, spacing)
    ensures k * spacing <= MAX_TICK ==> k * spacing <= FloorOf(MAX_TICK, spacing) * spacing
    ensures MAX_TICK < k * spacing ==> FloorOf(MAX_TICK, spacing) * spacing + spacing <= k * spacing
    ensures MIN_TICK <= k * spacing ==> CeilOf(MIN_TICK, spacing) * spacing <= k * spacing
    ensures k * spacing < MIN_TICK ==> k * spacing + spacing <= CeilOf(MIN_TICK, spacing) * spacing
  {
    hide FloorOf;
    var f := FloorOf(MAX_TICK, spacing);
    NumberText.Distribute(f, -f, spacing);
    UpperEdge(spacing, k);
    NumberText.Distribute(k, -k, spacing);
    UpperEdge(spacing, -k);
  }

  lemma UpperEdge(spacing: nat, k: int)
    requires 0 < spacing
    ensures 0 <= FloorOf(MAX_TICK, spacing) && 0 <= FloorOf(MAX_TICK, spacing) * spacing <= MAX_TICK
    ensures k * spacing <= MAX_TICK ==> k * spacing <= FloorOf(MAX_TICK, spacing) * spacing
    ensures MAX_TICK < k * spacing ==> FloorOf(MAX_TICK, spacing) * spacing + spacing <= k * spacing
  {
    hide FloorOf;
    var f := FloorOf(MAX_TICK, spacing);
    if f < 0 {
      Multiples(f, 0, spacing);
    }
    if f < k {
      Multiples(f, k, spacing);
    } else if k < f {
      Multiples(k, f, spacing);
    }
  }

  lemma ClampStaysOnGrid(k: int, spacing: nat)
    requires 0 < spacing
    ensures OnGrid(ClampAligned(k * spacing, spacing), spacing)
  {
    hide FloorOf, CeilOf;
    Edges(spacing, k);
  }

  function Distance(a: int, b: int): nat { if a < b then b - a else a - b }

  lemma RoundBounds(tick: int, spacing: nat)
    requires 0 < spacing
    ensures var rounded := RoundOf(tick, spacing) * spacing;
            2 * rounded <= 2 * tick + spacing < 2 * rounded + 2 * spacing
  {
    hide FloorOf;
    NumberText.Distribute(spacing, spacing, RoundOf(tick, spacing));
  }

  // The nearest grid point is the rounded one, or the edge when that is outside the bounds.
  lemma NearestOf(tick: int, spacing: nat, rounded: int, lowest: int, highest: int, other: int)
    requires 2 * rounded <= 2 * tick + spacing < 2 * rounded + 2 * spacing
    requires other == rounded || other + spacing <= rounded || rounded + spacing <= other
    requires lowest <= other <= highest
    requires MAX_TICK < rounded ==> highest + spacing <= rounded
    requires rounded < MIN_TICK ==> rounded + spacing <= lowest
    ensures var aligned := if MAX_TICK < rounded then highest else if rounded < MIN_TICK then lowest else rounded;
            && Distance(tick, aligned) <= Distance(tick, other)
            && (Distance(tick, aligned) == Distance(tick, other) ==> other <= aligned)
  {
  }

  /**
   * Aligning gives the grid point within the bounds that is nearest to the tick, the upper one of two that
   * are equally near.
   */
  lemma AlignedIsNearest(tick: int, spacing: nat, other: int)
    requires 0 < spacing && OnGrid(other, spacing)
    ensures var aligned := AlignTick(tick, spacing);
            && OnGrid(aligned, spacing)
            && Distance(tick, aligned) <= Distance(tick, other)
            && (Distance(tick, aligned) == Distance(tick, other) ==> other <= aligned)
  {
    hide FloorOf, CeilOf, RoundOf, Distance;
    var n := RoundOf(tick, spacing);
    var k :| other == k * spacing;
    ClampStaysOnGrid(n, spacing);
    Edges(spacing, k);
    Edges(spacing, n);
    RoundBounds(tick, spacing);
    if k < n {
      Multiples(k, n, spacing);
    } else if n < k {
      Multiples(n, k, spacing);
    }
    NearestOf(tick, spacing, n * spacing, CeilOf(MIN_TICK, spacing) * spacing, FloorOf(MAX_TICK, spacing) * spacing,
              other);
  }

  // Clamping moves a grid point no further than to an edge, so it keeps the order of grid points.
  lemma ClampKeepsOrder(a: int, b: int, spacing: nat)
    requires 0 < spacing && a <= b
    ensures ClampAligned(a * spacing, spacing) <= ClampAligned(b * spacing, spacing)
  {
    hide FloorOf, CeilOf;
    Edges(spacing, a);
    Edges(spacing, b);
    if a < b {
      Multiples(a, b, spacing);
    }
    Multiples(-FloorOf(MAX_TICK, spacing) - 1, FloorOf(MAX_TICK, spacing), spacing);
  }

  // With a spacing beyond the bounds zero is the only grid point.
  lemma WideSpacing(spacing: nat)
    requires 0 < spacing
    ensures spacing <= MAX_TICK <==> 0 < FloorOf(MAX_TICK, spacing)
    ensures MAX_TICK < spacing <==> FloorOf(MAX_TICK, spacing) == 0
  {
    var f := FloorOf(MAX_TICK, spacing);
    if f < 0 {
      Multiples(f, 0, spacing);
    } else if 0 < f {
      Multiples(0, f, spacing);
    }
  }

  lemma RangeAround(c: int, spacing: nat)
    requires 0 < spacing && MIN_TICK <= c * spacing <= MAX_TICK
    ensures var lower, upper := ClampAligned((c - 100) * spacing, spacing), ClampAligned((c + 100) * spacing, spacing);
            && AssertAligned(lower, spacing).Ok? && AssertAligned(upper, spacing).Ok?
            && lower <= c * spacing <= upper
            && (lower < upper <==> spacing <= MAX_TICK)
  {
    hide FloorOf, CeilOf, AssertAligned;
    ClampStaysOnGrid(c - 100, spacing);
    ClampStaysOnGrid(c + 100, spacing);
    AcceptedIffOnGrid(ClampAligned((c - 100) * spacing, spacing), spacing);
    AcceptedIffOnGrid(ClampAligned((c + 100) * spacing, spacing), spacing);
    ClampKeepsOrder(c - 100, c, spacing);
    ClampKeepsOrder(c, c + 100, spacing);
    Edges(spacing, c);
    Edges(spacing, c + 100);
    WideSpacing(spacing);
    Multiples(c - 100, c, spacing);
    Multiples(c, c + 100, spacing);
  }

  /**
   * The default range consists of accepted boundaries around the aligned tick, for every tick and spacing;
   * it is not empty exactly when the spacing leaves more than one grid point within the bounds.
   */
  lemma DefaultRangeIsValid(currentTick: int, spacing: nat)
    requires 0 < spacing
    ensures var (lower, upper) := DefaultTickRange(currentTick, spacing);
            && AssertAligned(lower, spacing).Ok? && AssertAligned(upper, spacing).Ok?
            && lower <= AlignTick(currentTick, spacing) <= upper
            && (AssertRange(lower, upper).Ok? <==> spacing <= MAX_TICK)
  {
    hide FloorOf, CeilOf, AssertAligned;
    var rounded := RoundOf(currentTick, spacing);
    ClampStaysOnGrid(rounded, spacing);
    var centre := AlignTick(currentTick, spacing);
    var c :| centre == c * spacing;
    assert centre - 100 * spacing == (c - 100) * spacing && centre + 100 * spacing == (c + 100) * spacing;
    RangeAround(c, spacing);
  }
}
