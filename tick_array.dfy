/** A tick array: a fixed-size chunk of TICK_ARRAY_SIZE ticks covering
    [start_tick_index, start_tick_index + TICK_ARRAY_SIZE * tick_spacing).
    Its code is not part of this model; it is given here by the operations the
    tick-array window calls, each with the contract the window relies on. */
module TickArrays {
  import opened Types
  import opened Rounding

  const TICK_ARRAY_SIZE: nat := 88
  const MIN_TICK_INDEX: int := -443636
  const MAX_TICK_INDEX: int := 443636

  datatype Tick = Tick(
    initialized: bool,
    liquidityNet: int,
    liquidityGross: nat,
    feeGrowthOutsideA: nat,
    feeGrowthOutsideB: nat,
    rewardGrowthsOutside: seq<nat>)

  datatype TickUpdate = TickUpdate(
    initialized: bool,
    liquidityNet: int,
    liquidityGross: nat,
    feeGrowthOutsideA: nat,
    feeGrowthOutsideB: nat,
    rewardGrowthsOutside: seq<nat>)

  /** `Tick::update`: every field is taken from the update. */
  function ApplyUpdate(u: TickUpdate): Tick {
    Tick(u.initialized, u.liquidityNet, u.liquidityGross,
         u.feeGrowthOutsideA, u.feeGrowthOutsideB, u.rewardGrowthsOutside)
  }

  /** A tick index within the global tick range. */
  predicate InTickRange(tickIndex: int) {
    MIN_TICK_INDEX <= tickIndex <= MAX_TICK_INDEX
  }

  /** `Tick::check_is_usable_tick`: inside the global bounds and a multiple of the spacing. */
  predicate IsUsableTick(tickIndex: int, tickSpacing: U16)
    requires tickSpacing > 0
  {
    MIN_TICK_INDEX <= tickIndex <= MAX_TICK_INDEX && tickIndex % tickSpacing == 0
  }

  /** The largest initialized offset at or below `o`, if any. */
  function ScanDown(ticks: seq<Tick>, o: int): (r: Option<nat>)
    requires -1 <= o < |ticks|
    ensures r.Some? ==> r.value <= o && ticks[r.value].initialized
    ensures r.Some? ==> forall j :: r.value < j <= o ==> !ticks[j].initialized
    ensures r.None? ==> forall j :: 0 <= j <= o ==> !ticks[j].initialized
    decreases o + 1
  {
    if o < 0 then None
    else if ticks[o].initialized then Some(o)
    else ScanDown(ticks, o - 1)
  }

  /** The smallest initialized offset at or above `o`, if any. */
  function ScanUp(ticks: seq<Tick>, o: nat): (r: Option<nat>)
    requires o <= |ticks|
    ensures r.Some? ==> o <= r.value < |ticks| && ticks[r.value].initialized
    ensures r.Some? ==> forall j :: o <= j < r.value ==> !ticks[j].initialized
    ensures r.None? ==> forall j :: o <= j < |ticks| ==> !ticks[j].initialized
    decreases |ticks| - o
  {
    if o == |ticks| then None
    else if ticks[o].initialized then Some(o)
    else ScanUp(ticks, o + 1)
  }

  /** Offsets are ordered like the tick indexes they stand for. */
  lemma OffsetOrder(o: int, x: int, spacing: nat)
    requires spacing > 0
    ensures o * spacing <= x <==> o <= x / spacing
  {
    var q := x / spacing;
    assert x == q * spacing + x % spacing;
    if o <= q {
      MulMonotone(o, q, spacing);
    } else {
      MulMonotone(q + 1, o, spacing);
    }
  }

  class TickArray {
    const startTickIndex: int
    const ticks: array<Tick>

    ghost predicate Valid() {
      ticks.Length == TICK_ARRAY_SIZE
    }

    constructor (startTickIndex: int, initial: seq<Tick>)
      requires |initial| == TICK_ARRAY_SIZE
      ensures Valid() && fresh(ticks)
      ensures this.startTickIndex == startTickIndex && ticks[..] == initial
    {
      this.startTickIndex := startTickIndex;
      ticks := new Tick[TICK_ARRAY_SIZE](i requires 0 <= i < TICK_ARRAY_SIZE => initial[i]);
    }

    /** `is_min_tick_array`: no tick of the global range lies below the chunk. */
    predicate IsMinTickArray(): (r: bool)
      ensures r <==> forall t :: InTickRange(t) ==> startTickIndex <= t
    {
      assert InTickRange(MIN_TICK_INDEX);
      startTickIndex <= MIN_TICK_INDEX
    }

    /** `is_max_tick_array`: no tick of the global range lies at or past the
        chunk's end. */
    predicate IsMaxTickArray(tickSpacing: U16): (r: bool)
      ensures r <==> forall t :: InTickRange(t) ==> t < startTickIndex + TICK_ARRAY_SIZE * tickSpacing
    {
      assert InTickRange(MAX_TICK_INDEX);
      startTickIndex + TICK_ARRAY_SIZE * tickSpacing > MAX_TICK_INDEX
    }

    /** The last tick index the chunk covers. */
    function LastTickIndex(tickSpacing: U16): int {
      startTickIndex + TICK_ARRAY_SIZE * tickSpacing - 1
    }

    /** `check_in_array_bounds` */
    predicate CheckInArrayBounds(tickIndex: int, tickSpacing: U16) {
      startTickIndex <= tickIndex < startTickIndex + TICK_ARRAY_SIZE * tickSpacing
    }

    /** The condition under which `get_tick` and `update_tick` find a tick. */
    predicate HoldsUsableTick(tickIndex: int, tickSpacing: U16) {
      CheckInArrayBounds(tickIndex, tickSpacing) && IsUsableTick(tickIndex, tickSpacing)
    }

    /** `in_search_range`: the covered range, moved one spacing down when
        `shifted` (a search that excludes its start tick). */
    predicate InSearchRange(tickIndex: int, tickSpacing: U16, shifted: bool) {
      var lower := if shifted then startTickIndex - tickSpacing else startTickIndex;
      lower <= tickIndex < lower + TICK_ARRAY_SIZE * tickSpacing
    }

    /** `tick_offset`: the offset of the slot whose spacing-wide range holds
        `tickIndex` (floor division). */
    function TickOffset(tickIndex: int, tickSpacing: U16): (r: Result<int>)
      ensures tickSpacing == 0 <==> r == Err(InvalidTickSpacing)
      ensures r.Ok? <==> tickSpacing > 0
      ensures r.Ok? ==>
        startTickIndex + r.value * tickSpacing <= tickIndex < startTickIndex + (r.value + 1) * tickSpacing
    {
      if tickSpacing == 0 then
        Err(InvalidTickSpacing)
      else
        var x := tickIndex - startTickIndex;
        assert x == (x / tickSpacing) * tickSpacing + x % tickSpacing;
        Ok(x / tickSpacing)
    }

    /** `get_tick` */
    function GetTick(tickIndex: int, tickSpacing: U16): (r: Result<Tick>)
      requires Valid()
      reads ticks
      ensures r.Ok? <==> HoldsUsableTick(tickIndex, tickSpacing)
      ensures r.Err? ==> r.error == TickNotFound
      ensures r.Ok? ==> exists o :: 0 <= o < TICK_ARRAY_SIZE && r.value == ticks[o] &&
                         startTickIndex + o * tickSpacing <= tickIndex < startTickIndex + (o + 1) * tickSpacing
    {
      if !HoldsUsableTick(tickIndex, tickSpacing) then
        Err(TickNotFound)
      else
        var offset := TickOffset(tickIndex, tickSpacing).value;
        OffsetOrder(TICK_ARRAY_SIZE, tickIndex - startTickIndex, tickSpacing);
        Ok(ticks[offset])
    }

    /** `update_tick`: overwrites the tick that `get_tick` would return. */
    method UpdateTick(tickIndex: int, tickSpacing: U16, update: TickUpdate) returns (r: Result<()>)
      requires Valid()
      modifies ticks
      ensures r.Ok? <==> HoldsUsableTick(tickIndex, tickSpacing)
      ensures r.Err? ==> r.error == TickNotFound && ticks[..] == old(ticks[..])
      ensures r.Ok? ==>
        var offset := (tickIndex - startTickIndex) / tickSpacing;
        0 <= offset < TICK_ARRAY_SIZE && ticks[..] == old(ticks[..])[offset := ApplyUpdate(update)]
    {
      if !HoldsUsableTick(tickIndex, tickSpacing) {
        return Err(TickNotFound);
      }
      var offset := TickOffset(tickIndex, tickSpacing).value;
      OffsetOrder(TICK_ARRAY_SIZE, tickIndex - startTickIndex, tickSpacing);
      ticks[offset] := ApplyUpdate(update);
      r := Ok(());
    }

    /** A tick index this chunk holds at a slot boundary, whose tick is initialized. */
    ghost predicate IsInitializedTick(tickIndex: int, tickSpacing: U16)
      reads ticks
      requires Valid()
    {
      && tickSpacing > 0
      && CheckInArrayBounds(tickIndex, tickSpacing)
      && (tickIndex - startTickIndex) % tickSpacing == 0
      && 0 <= (tickIndex - startTickIndex) / tickSpacing < TICK_ARRAY_SIZE
      && ticks[(tickIndex - startTickIndex) / tickSpacing].initialized
    }

    /** `get_next_init_tick_index`: the nearest initialized tick of this chunk
        at or below `tickIndex` when `aToB`, strictly above it otherwise. The
        start tick must lie in the chunk's search range for that direction. */
    function NextInitTickIndex(tickIndex: int, tickSpacing: U16, aToB: bool): (r: Result<Option<int>>)
      requires Valid()
      reads ticks
      ensures r.Err? <==> !InSearchRange(tickIndex, tickSpacing, !aToB)
      ensures r.Err? ==> r.error == InvalidTickArraySequence
      ensures r.Ok? && r.value.Some? ==> IsInitializedTick(r.value.value, tickSpacing)
      ensures r.Ok? && r.value.Some? ==> if aToB then r.value.value <= tickIndex else tickIndex < r.value.value
    {
      if !InSearchRange(tickIndex, tickSpacing, !aToB) then
        Err(InvalidTickArraySequence)
      else
        var curr := TickOffset(tickIndex, tickSpacing).value;
        OffsetOrder(if aToB then 0 else -1, tickIndex - startTickIndex, tickSpacing);
        OffsetOrder(if aToB then TICK_ARRAY_SIZE else TICK_ARRAY_SIZE - 1, tickIndex - startTickIndex, tickSpacing);
        var found := if aToB then ScanDown(ticks[..], curr) else ScanUp(ticks[..], curr + 1);
        match found
        case None => Ok(None)
        case Some(o) =>
          SlotTick(o, tickSpacing);
          OffsetOrder(o, tickIndex - startTickIndex, tickSpacing);
          Ok(Some(o * tickSpacing + startTickIndex))
    }

    /** Slot `o` stands for the tick index start + o * spacing, and back. */
    lemma SlotTick(o: nat, tickSpacing: U16)
      requires o < TICK_ARRAY_SIZE && tickSpacing > 0
      ensures (o * tickSpacing) / tickSpacing == o && (o * tickSpacing) % tickSpacing == 0
      ensures 0 <= o * tickSpacing < TICK_ARRAY_SIZE * tickSpacing
    {
      DivModUnique(o * tickSpacing, tickSpacing, o, 0);
      MulMonotone(o + 1, TICK_ARRAY_SIZE, tickSpacing);
    }

    /** The search skips no initialized tick: when it finds `t`, no tick of
        this chunk strictly between the start and `t` (in the search direction)
        is initialized; when it finds none, no tick on that side is. */
    lemma NextInitTickIndexIsNearest(tickIndex: int, tickSpacing: U16, aToB: bool)
      requires Valid()
      requires NextInitTickIndex(tickIndex, tickSpacing, aToB).Ok?
      ensures var found := NextInitTickIndex(tickIndex, tickSpacing, aToB).value;
        forall o :: 0 <= o < TICK_ARRAY_SIZE && ticks[o].initialized ==>
          var t := startTickIndex + o * tickSpacing;
          if aToB then
            t > tickIndex || (found.Some? && t <= found.value)
          else
            t <= tickIndex || (found.Some? && found.value <= t)
    {
      var found := NextInitTickIndex(tickIndex, tickSpacing, aToB).value;
      forall o | 0 <= o < TICK_ARRAY_SIZE && ticks[o].initialized
        ensures var t := startTickIndex + o * tickSpacing;
          if aToB then t > tickIndex || (found.Some? && t <= found.value)
          else t <= tickIndex || (found.Some? && found.value <= t)
      {
        if aToB {
          NearestBelow(tickIndex, tickSpacing, o);
        } else {
          NearestAbove(tickIndex, tickSpacing, o);
        }
      }
    }

    lemma NearestBelow(tickIndex: int, tickSpacing: U16, o: nat)
      requires Valid() && o < TICK_ARRAY_SIZE && ticks[o].initialized
      requires NextInitTickIndex(tickIndex, tickSpacing, true).Ok?
      ensures var found := NextInitTickIndex(tickIndex, tickSpacing, true).value;
        startTickIndex + o * tickSpacing > tickIndex
        || (found.Some? && startTickIndex + o * tickSpacing <= found.value)
    {
      var x := tickIndex - startTickIndex;
      var curr := x / tickSpacing;
      OffsetOrder(o, x, tickSpacing);
      if o <= curr {
        OffsetOrder(TICK_ARRAY_SIZE, x, tickSpacing);
        assert ticks[..][o].initialized;
        var s := ScanDown(ticks[..], curr);
        assert s.Some? && o <= s.value;
        assert NextInitTickIndex(tickIndex, tickSpacing, true) == Ok(Some(s.value * tickSpacing + startTickIndex));
        MulMonotone(o, s.value, tickSpacing);
      }
    }

    lemma NearestAbove(tickIndex: int, tickSpacing: U16, o: nat)
      requires Valid() && o < TICK_ARRAY_SIZE && ticks[o].initialized
      requires NextInitTickIndex(tickIndex, tickSpacing, false).Ok?
      ensures var found := NextInitTickIndex(tickIndex, tickSpacing, false).value;
        startTickIndex + o * tickSpacing <= tickIndex
        || (found.Some? && found.value <= startTickIndex + o * tickSpacing)
    {
      var x := tickIndex - startTickIndex;
      var curr := x / tickSpacing;
      OffsetOrder(o, x, tickSpacing);
      if curr < o {
        assert ticks[..][o].initialized;
        var s := ScanUp(ticks[..], curr + 1);
        MulMonotone(s.value, o, tickSpacing);
      }
    }
  }
}
