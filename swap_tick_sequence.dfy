/** The window of one to three tick arrays a swap borrows, in traversal order
    (array 0 holds the current price), and the walk that finds the next
    initialized tick across them. */
module TickSequence {
  import opened Types
  import opened TickArrays

  class SwapTickSequence {
    /** The borrowed chunks; the window never changes which chunks it holds. */
    const arrays: seq<TickArray>

    /** One to three chunks, each over its own tick buffer (the borrows are
        exclusive, so no two chunks share a buffer). */
    ghost predicate Valid() {
      && 1 <= |arrays| <= 3
      && (forall i :: 0 <= i < |arrays| ==> arrays[i].Valid())
      && (forall i, j :: 0 <= i < j < |arrays| ==> arrays[i].ticks != arrays[j].ticks)
    }

    /** The tick buffers of the window's chunks. */
    ghost function Repr(): set<object> {
      set i | 0 <= i < |arrays| :: arrays[i].ticks
    }

    /** `new`: ta0, then ta1 and ta2 when present, in that order. */
    constructor (ta0: TickArray, ta1: Option<TickArray>, ta2: Option<TickArray>)
      requires ta0.Valid()
      requires ta1.Some? ==> ta1.value.Valid() && ta1.value.ticks != ta0.ticks
      requires ta2.Some? ==> ta2.value.Valid() && ta2.value.ticks != ta0.ticks
      requires ta1.Some? && ta2.Some? ==> ta1.value.ticks != ta2.value.ticks
      ensures Valid()
      ensures arrays == [ta0] + (if ta1.Some? then [ta1.value] else []) + (if ta2.Some? then [ta2.value] else [])
      ensures |arrays| == 1 + (if ta1.Some? then 1 else 0) + (if ta2.Some? then 1 else 0)
    {
      var vec := [ta0];
      if ta1.Some? {
        vec := vec + [ta1.value];
      }
      if ta2.Some? {
        vec := vec + [ta2.value];
      }
      arrays := vec;
    }

    /** `get_tick` */
    function GetTick(arrayIndex: nat, tickIndex: int, tickSpacing: U16): (r: Result<Tick>)
      requires Valid()
      reads Repr()
      ensures r == Err(TickArrayIndexOutofBounds) <==> arrayIndex >= |arrays|
      ensures arrayIndex < |arrays| ==> r == arrays[arrayIndex].GetTick(tickIndex, tickSpacing)
    {
      if arrayIndex < |arrays| then
        arrays[arrayIndex].GetTick(tickIndex, tickSpacing)
      else
        Err(TickArrayIndexOutofBounds)
    }

    /** `update_tick`: updates one tick of the chunk at `arrayIndex` and
        nothing else. */
    method UpdateTick(arrayIndex: nat, tickIndex: int, tickSpacing: U16, update: TickUpdate) returns (r: Result<()>)
      requires Valid()
      modifies if arrayIndex < |arrays| then {arrays[arrayIndex].ticks} else {}
      ensures Valid()
      ensures r == Err(TickArrayIndexOutofBounds) <==> arrayIndex >= |arrays|
      ensures arrayIndex < |arrays| ==>
        (r.Ok? <==> arrays[arrayIndex].HoldsUsableTick(tickIndex, tickSpacing))
      ensures arrayIndex < |arrays| && r.Err? ==> r.error == TickNotFound
      ensures r.Ok? ==>
        var a := arrays[arrayIndex];
        var offset := (tickIndex - a.startTickIndex) / tickSpacing;
        0 <= offset < TICK_ARRAY_SIZE && a.ticks[..] == old(a.ticks[..])[offset := ApplyUpdate(update)]
      ensures forall j :: 0 <= j < |arrays| && (j != arrayIndex || r.Err?) ==>
        arrays[j].ticks[..] == old(arrays[j].ticks[..])
    {
      if arrayIndex < |arrays| {
        r := arrays[arrayIndex].UpdateTick(tickIndex, tickSpacing, update);
      } else {
        r := Err(TickArrayIndexOutofBounds);
      }
    }

    /** `get_tick_offset` */
    function GetTickOffset(arrayIndex: nat, tickIndex: int, tickSpacing: U16): (r: Result<int>)
      requires Valid()
      ensures r == Err(TickArrayIndexOutofBounds) <==> arrayIndex >= |arrays|
      ensures arrayIndex < |arrays| ==> r == arrays[arrayIndex].TickOffset(tickIndex, tickSpacing)
    {
      if arrayIndex < |arrays| then
        arrays[arrayIndex].TickOffset(tickIndex, tickSpacing)
      else
        Err(TickArrayIndexOutofBounds)
    }

    /** Where the walk resumes in the next chunk once chunk `a` is exhausted:
        just below its first tick (A to B) or at its last tick (B to A, whose
        search excludes the start). */
    function AdvanceSearchIndex(a: TickArray, tickSpacing: U16, aToB: bool): int {
      if aToB then a.startTickIndex - 1 else a.LastTickIndex(tickSpacing)
    }

    /** Where the walk stops when the last chunk is exhausted: its first tick
        (A to B) or its last tick (B to A). */
    function BoundaryTickIndex(a: TickArray, tickSpacing: U16, aToB: bool): int {
      if aToB then a.startTickIndex else a.LastTickIndex(tickSpacing)
    }

    /** The outcome of the walk from chunk `arrayIndex`, searching from
        `searchIndex`: the specification of `get_next_initialized_tick_index`. */
    ghost function NextInitializedFrom(searchIndex: int, tickSpacing: U16, aToB: bool, arrayIndex: nat): Result<(nat, int)>
      requires Valid()
      reads Repr()
      decreases |arrays| - arrayIndex
    {
      if arrayIndex >= |arrays| then
        Err(TickArraySequenceInvalidIndex)
      else
        var a := arrays[arrayIndex];
        match a.NextInitTickIndex(searchIndex, tickSpacing, aToB)
        case Err(e) => Err(e)
        case Ok(Some(t)) => Ok((arrayIndex, t))
        case Ok(None) =>
          if aToB && a.IsMinTickArray() then
            Ok((arrayIndex, MIN_TICK_INDEX))
          else if !aToB && a.IsMaxTickArray(tickSpacing) then
            Ok((arrayIndex, MAX_TICK_INDEX))
          else if arrayIndex + 1 == |arrays| then
            Ok((arrayIndex, BoundaryTickIndex(a, tickSpacing, aToB)))
          else
            NextInitializedFrom(AdvanceSearchIndex(a, tickSpacing, aToB), tickSpacing, aToB, arrayIndex + 1)
    }

    /** The search index the walk started from `arrayIndex` uses in chunk `k`. */
    ghost function EntrySearchIndex(searchIndex: int, tickSpacing: U16, aToB: bool, arrayIndex: nat, k: nat): int
      requires Valid() && arrayIndex <= k < |arrays|
    {
      if k == arrayIndex then searchIndex else AdvanceSearchIndex(arrays[k - 1], tickSpacing, aToB)
    }

    /** `get_next_initialized_tick_index` */
    method GetNextInitializedTickIndex(tickIndex: int, tickSpacing: U16, aToB: bool, startArrayIndex: nat)
      returns (r: Result<(nat, int)>)
      requires Valid()
      ensures r == NextInitializedFrom(tickIndex, tickSpacing, aToB, startArrayIndex)
      ensures r == Err(TickArraySequenceInvalidIndex) <==> startArrayIndex >= |arrays|
      ensures r.Ok? ==> startArrayIndex <= r.value.0 < |arrays|
      ensures r.Ok? && aToB ==> r.value.1 <= tickIndex || r.value.1 == MIN_TICK_INDEX
      ensures r.Ok? && !aToB ==> tickIndex < r.value.1 || r.value.1 == MAX_TICK_INDEX
    {
      NextInitializedIndexRange(tickIndex, tickSpacing, aToB, startArrayIndex);
      NextInitializedDirection(tickIndex, tickSpacing, aToB, startArrayIndex);
      var ticksInArray := TICK_ARRAY_SIZE * tickSpacing;
      var searchIndex := tickIndex;
      var arrayIndex := startArrayIndex;
      while true
        invariant startArrayIndex <= arrayIndex
        invariant arrayIndex == startArrayIndex || arrayIndex < |arrays|
        invariant NextInitializedFrom(searchIndex, tickSpacing, aToB, arrayIndex)
               == NextInitializedFrom(tickIndex, tickSpacing, aToB, startArrayIndex)
        decreases |arrays| - arrayIndex
      {
        if arrayIndex >= |arrays| {
          return Err(TickArraySequenceInvalidIndex);
        }
        var nextArray := arrays[arrayIndex];
        var nextIndex :- nextArray.NextInitTickIndex(searchIndex, tickSpacing, aToB);
        match nextIndex {
          case Some(next) =>
            return Ok((arrayIndex, next));
          case None =>
            if aToB && nextArray.IsMinTickArray() {
              return Ok((arrayIndex, MIN_TICK_INDEX));
            } else if !aToB && nextArray.IsMaxTickArray(tickSpacing) {
              return Ok((arrayIndex, MAX_TICK_INDEX));
            }
            if arrayIndex + 1 == |arrays| {
              if aToB {
                return Ok((arrayIndex, nextArray.startTickIndex));
              } else {
                var lastTick := nextArray.startTickIndex + ticksInArray - 1;
                return Ok((arrayIndex, lastTick));
              }
            }
            searchIndex := if aToB then nextArray.startTickIndex - 1 else nextArray.startTickIndex + ticksInArray - 1;
            arrayIndex := arrayIndex + 1;
        }
      }
    }

    /** The walk only fails with TickArraySequenceInvalidIndex when it starts
        past the last chunk, and otherwise stops in a chunk at or after the
        one it started in. */
    lemma {:induction false} NextInitializedIndexRange(searchIndex: int, tickSpacing: U16, aToB: bool, arrayIndex: nat)
      requires Valid()
      ensures var r := NextInitializedFrom(searchIndex, tickSpacing, aToB, arrayIndex);
        && (r == Err(TickArraySequenceInvalidIndex) <==> arrayIndex >= |arrays|)
        && (r.Ok? ==> arrayIndex <= r.value.0 < |arrays|)
      decreases |arrays| - arrayIndex
    {
      if arrayIndex < |arrays| {
        var a := arrays[arrayIndex];
        if a.NextInitTickIndex(searchIndex, tickSpacing, aToB) == Ok(None)
           && !(aToB && a.IsMinTickArray()) && !(!aToB && a.IsMaxTickArray(tickSpacing))
           && arrayIndex + 1 < |arrays|
        {
          NextInitializedIndexRange(AdvanceSearchIndex(a, tickSpacing, aToB), tickSpacing, aToB, arrayIndex + 1);
        }
      }
    }

    /** The walk moves in the trade direction: A to B it never returns a tick
        above its start, B to A never one at or below it, except for the
        global minimum or maximum tick. */
    lemma {:induction false} NextInitializedDirection(searchIndex: int, tickSpacing: U16, aToB: bool, arrayIndex: nat)
      requires Valid()
      ensures var r := NextInitializedFrom(searchIndex, tickSpacing, aToB, arrayIndex);
        && (r.Ok? && aToB ==> r.value.1 <= searchIndex || r.value.1 == MIN_TICK_INDEX)
        && (r.Ok? && !aToB ==> searchIndex < r.value.1 || r.value.1 == MAX_TICK_INDEX)
      decreases |arrays| - arrayIndex
    {
      if arrayIndex < |arrays| {
        var a := arrays[arrayIndex];
        if a.NextInitTickIndex(searchIndex, tickSpacing, aToB) == Ok(None)
           && !(aToB && a.IsMinTickArray()) && !(!aToB && a.IsMaxTickArray(tickSpacing))
           && arrayIndex + 1 < |arrays|
        {
          NextInitializedDirection(AdvanceSearchIndex(a, tickSpacing, aToB), tickSpacing, aToB, arrayIndex + 1);
        }
      }
    }

    /** What the walk's result means: every chunk it passed was exhausted in
        the search direction without reaching a global bound, and the chunk it
        stopped in either reported an initialized tick, or holds the global
        minimum (A to B) or maximum (B to A) tick, or is the last one loaded
        and the walk stops at its boundary tick. */
    lemma {:induction false} NextInitializedOutcome(searchIndex: int, tickSpacing: U16, aToB: bool, arrayIndex: nat)
      requires Valid()
      requires NextInitializedFrom(searchIndex, tickSpacing, aToB, arrayIndex).Ok?
      ensures var (j, t) := NextInitializedFrom(searchIndex, tickSpacing, aToB, arrayIndex).value;
        && arrayIndex <= j < |arrays|
        && (forall k :: arrayIndex <= k < j ==>
              && arrays[k].NextInitTickIndex(EntrySearchIndex(searchIndex, tickSpacing, aToB, arrayIndex, k), tickSpacing, aToB) == Ok(None)
              && !(aToB && arrays[k].IsMinTickArray())
              && !(!aToB && arrays[k].IsMaxTickArray(tickSpacing)))
        && var found := arrays[j].NextInitTickIndex(EntrySearchIndex(searchIndex, tickSpacing, aToB, arrayIndex, j), tickSpacing, aToB);
           || found == Ok(Some(t))
           || (found == Ok(None) && aToB && arrays[j].IsMinTickArray() && t == MIN_TICK_INDEX)
           || (found == Ok(None) && !aToB && arrays[j].IsMaxTickArray(tickSpacing) && t == MAX_TICK_INDEX)
           || (&& found == Ok(None) && j == |arrays| - 1
               && !(aToB && arrays[j].IsMinTickArray()) && !(!aToB && arrays[j].IsMaxTickArray(tickSpacing))
               && t == BoundaryTickIndex(arrays[j], tickSpacing, aToB))
      decreases |arrays| - arrayIndex
    {
      var a := arrays[arrayIndex];
      if a.NextInitTickIndex(searchIndex, tickSpacing, aToB) == Ok(None)
         && !(aToB && a.IsMinTickArray()) && !(!aToB && a.IsMaxTickArray(tickSpacing))
         && arrayIndex + 1 < |arrays|
      {
        var next := AdvanceSearchIndex(a, tickSpacing, aToB);
        NextInitializedOutcome(next, tickSpacing, aToB, arrayIndex + 1);
        forall k | arrayIndex + 1 <= k < |arrays|
          ensures EntrySearchIndex(next, tickSpacing, aToB, arrayIndex + 1, k)
               == EntrySearchIndex(searchIndex, tickSpacing, aToB, arrayIndex, k)
        {
        }
      }
    }
  }
}
