/**
 * The board object: 25 slots holding stacks, the merge counter, the input
 * lock, the ended flag, the dock stacks waiting to be placed, the score and
 * whether the end-of-game overlay is shown. Every operation that the
 * game's code schedules after a delay is a separate step method here, to be
 * called in the order the delays give.
 */
module GameBoard {
  import opened Stacks
  import opened BoardRules
  import MergeLogic

  /**
   * A dock stack waiting beside the board. Its tiles never change; it is
   * told apart from other dock stacks by identity, not by its colours.
   */
  class DockStack {
    const tiles: seq<Color>

    constructor (tiles: seq<Color>)
      ensures this.tiles == tiles
    {
      this.tiles := tiles;
    }
  }

  /** Index of the first occurrence of `x` in `xs`, or -1 when there is none. */
  function IndexOf<T(==)>(xs: seq<T>, x: T): (r: int)
    ensures -1 <= r < |xs|
    ensures r == -1 <==> x !in xs
    ensures r >= 0 ==> xs[r] == x && x !in xs[..r]
    decreases |xs|
  {
    if |xs| == 0 then -1
    else if xs[0] == x then 0
    else
      var k := IndexOf(xs[1..], x);
      assert xs[1..][..if k >= 0 then k else 0] == xs[1..if k >= 0 then k + 1 else 1];
      if k == -1 then -1 else k + 1
  }

  /**
   * `xs` without the first occurrence of `x`: one occurrence fewer, the
   * other elements kept in order; unchanged when `x` does not occur.
   */
  function RemoveFirst<T(==)>(xs: seq<T>, x: T): (r: seq<T>)
    ensures multiset(r) == multiset(xs) - multiset{x}
    ensures x in xs ==> |r| == |xs| - 1
    ensures x !in xs ==> r == xs
    ensures x in xs ==> r == xs[..IndexOf(xs, x)] + xs[IndexOf(xs, x) + 1..]
  {
    var index := IndexOf(xs, x);
    if index > -1 then
      assert xs == xs[..index] + [x] + xs[index + 1..];
      xs[..index] + xs[index + 1..]
    else xs
  }
  /** Cutting out the element at `indexOf`'s answer, when there is one, is `RemoveFirst`. */
  lemma SpliceRemovesFirst<T>(xs: seq<T>, x: T, index: int, r: seq<T>)
    requires index == IndexOf(xs, x)
    requires r == if index > -1 then xs[..index] + xs[index + 1..] else xs
    ensures r == RemoveFirst(xs, x)
    ensures multiset(r) == multiset(xs) - multiset{x}
  {
    var removed := RemoveFirst(xs, x);
    if index > -1 {
      assert x in xs;
      assert removed == xs[..index] + xs[index + 1..];
    } else {
      assert removed == xs;
    }
  }


  /**
   * The stack generated from `d`, built tile by tile from the bottom: the
   * top two tiles take the top colour, every tile below takes its own draw.
   */
  method GenerateStack(minHeight: nat, d: StackDraws) returns (stack: seq<Color>)
    requires WellFormedDraws(d, minHeight)
    ensures stack == GeneratedStack(minHeight, d)
  {
    var stackHeight := d.heightRoll + minHeight;
    var topColor := AvailableColors[d.topRoll];
    stack := [];
    for j := 0 to stackHeight
      invariant stack == GeneratedStack(minHeight, d)[..j]
    {
      var color;
      if j >= stackHeight - 2 {
        color := topColor;
      } else {
        color := AvailableColors[d.lowerRolls[j]];
      }
      stack := stack + [color];
    }
  }

  class Board {
    /** Stack of each slot, bottom to top; every slot has capacity `MaxStackHeight`. */
    const slots: array<seq<Color>>
    var mergeCount: nat
    var inputLocked: bool
    var gameEnded: bool
    var draggableStacks: seq<DockStack>
    var score: int
    var overlayShown: bool

    /**
     * The board has its 25 slots, and an ended game keeps input locked and
     * has counted its `MergeLimit` merges.
     */
    ghost predicate Valid()
      reads this
    {
      slots.Length == SlotCount &&
      (gameEnded ==> inputLocked && mergeCount >= MergeLimit)
    }

    /**
     * A fresh board: the three seed slots hold stacks generated from
     * `seedDraws`, every other slot is empty, and three dock stacks are
     * generated from `dockDraws`.
     */
    constructor (seedDraws: seq<StackDraws>, dockDraws: seq<StackDraws>)
      requires |seedDraws| == |InitialSlots|
      requires forall k :: 0 <= k < |seedDraws| ==> WellFormedDraws(seedDraws[k], SeedMinHeight)
      requires |dockDraws| == DockCount
      requires forall k :: 0 <= k < |dockDraws| ==> WellFormedDraws(dockDraws[k], DockMinHeight)
      ensures Valid() && fresh(slots)
      ensures forall k :: 0 <= k < |InitialSlots| ==> slots[InitialSlots[k]] == GeneratedStack(SeedMinHeight, seedDraws[k])
      ensures forall i :: 0 <= i < SlotCount && i !in InitialSlots ==> slots[i] == []
      ensures mergeCount == 0 && !inputLocked && !gameEnded && score == 0 && !overlayShown
      ensures |draggableStacks| == DockCount
      ensures forall k :: 0 <= k < DockCount ==>
        fresh(draggableStacks[k]) && draggableStacks[k].tiles == GeneratedStack(DockMinHeight, dockDraws[k])
    {
      slots := new seq<Color>[SlotCount](_ => []);
      mergeCount, inputLocked, gameEnded := 0, false, false;
      draggableStacks := [];
      score, overlayShown := 0, false;
      new;
      SetupInitialState(seedDraws, dockDraws);
    }

    /**
     * Fills the empty board: each seed slot in turn gets a stack generated
     * from its draws, then the dock is stocked.
     */
    method SetupInitialState(seedDraws: seq<StackDraws>, dockDraws: seq<StackDraws>)
      requires Valid() && forall i :: 0 <= i < SlotCount ==> slots[i] == []
      requires draggableStacks == []
      requires |seedDraws| == |InitialSlots|
      requires forall k :: 0 <= k < |seedDraws| ==> WellFormedDraws(seedDraws[k], SeedMinHeight)
      requires |dockDraws| == DockCount
      requires forall k :: 0 <= k < |dockDraws| ==> WellFormedDraws(dockDraws[k], DockMinHeight)
      modifies slots, this`draggableStacks
      ensures Valid()
      ensures forall k :: 0 <= k < |InitialSlots| ==> slots[InitialSlots[k]] == GeneratedStack(SeedMinHeight, seedDraws[k])
      ensures forall i :: 0 <= i < SlotCount && i !in InitialSlots ==> slots[i] == []
      ensures |draggableStacks| == DockCount
      ensures forall k :: 0 <= k < DockCount ==>
        fresh(draggableStacks[k]) && draggableStacks[k].tiles == GeneratedStack(DockMinHeight, dockDraws[k])
    {
      for k := 0 to |InitialSlots|
        invariant forall k' :: 0 <= k' < k ==> slots[InitialSlots[k']] == GeneratedStack(SeedMinHeight, seedDraws[k'])
        invariant forall i :: 0 <= i < SlotCount && i !in InitialSlots[..k] ==> slots[i] == []
        invariant draggableStacks == []
      {
        var stack := GenerateStack(SeedMinHeight, seedDraws[k]);
        assert InitialSlots[..k + 1] == InitialSlots[..k] + [InitialSlots[k]];
        assert forall k' :: 0 <= k' < k ==> InitialSlots[k'] < InitialSlots[k];
        slots[InitialSlots[k]] := stack;
      }
      assert InitialSlots[..|InitialSlots|] == InitialSlots;
      CreateDraggableStacks(dockDraws);
    }

    /**
     * Adds a batch of dock stacks, one per dock position, generated from
     * `draws`; the stacks already waiting stay, in order, before them.
     */
    method CreateDraggableStacks(draws: seq<StackDraws>)
      requires Valid() && |draws| == DockCount
      requires forall k :: 0 <= k < |draws| ==> WellFormedDraws(draws[k], DockMinHeight)
      modifies this`draggableStacks
      ensures Valid()
      ensures |draggableStacks| == |old(draggableStacks)| + DockCount
      ensures draggableStacks[..|old(draggableStacks)|] == old(draggableStacks)
      ensures forall i :: |old(draggableStacks)| <= i < |draggableStacks| ==>
        fresh(draggableStacks[i]) &&
        draggableStacks[i].tiles == GeneratedStack(DockMinHeight, draws[i - |old(draggableStacks)|])
    {
      ghost var added: seq<DockStack> := [];
      for i := 0 to DockCount
        invariant draggableStacks == old(draggableStacks) + added && |added| == i
        invariant forall k :: 0 <= k < i ==>
          fresh(added[k]) && added[k].tiles == GeneratedStack(DockMinHeight, draws[k])
      {
        var tiles := GenerateStack(DockMinHeight, draws[i]);
        var dock := new DockStack(tiles);
        draggableStacks := draggableStacks + [dock];
        added := added + [dock];
      }
      forall i | |old(draggableStacks)| <= i < |draggableStacks|
        ensures draggableStacks[i] == added[i - |old(draggableStacks)|]
      {
      }
    }

    /**
     * The group a player or the sweep may pick up from slot `slotId`: the
     * top group of its stack, or nothing for an empty or missing slot.
     */
    method GetSelectableGroup(slotId: int) returns (group: seq<Color>)
      requires Valid()
      ensures !(0 <= slotId < SlotCount) ==> group == []
      ensures 0 <= slotId < SlotCount ==> group == TopGroup(slots[slotId])
      ensures 0 <= slotId < SlotCount && |slots[slotId]| > 0 ==> |group| > 0 && group[0] == Top(slots[slotId])
    {
      if !(0 <= slotId < slots.Length) || |slots[slotId]| == 0 {
        return [];
      }
      var stack := slots[slotId];
      var topColor := stack[|stack| - 1];
      group := [];
      var i := |stack| - 1;
      while i >= 0 && stack[i] == topColor
        invariant -1 <= i < |stack|
        invariant group == stack[i + 1..]
        invariant AllColour(group, topColor)
        decreases i
      {
        group := [stack[i]] + group;
        i := i - 1;
      }
      TopGroupAbove(stack, i);
    }

    /**
     * Whether `group` may be dropped on slot `targetSlotId`: never an empty
     * group, a missing slot or a drop over capacity; always onto an empty
     * slot within capacity; otherwise exactly when the slot's top colour is
     * the group's colour.
     */
    function CanDropGroup(targetSlotId: int, group: seq<Color>): (r: bool)
      requires Valid()
      reads this, slots
      ensures |group| == 0 || !(0 <= targetSlotId < SlotCount) ==> !r
      ensures 0 <= targetSlotId < SlotCount && |slots[targetSlotId]| + |group| > MaxStackHeight ==> !r
      ensures 0 <= targetSlotId < SlotCount && |group| > 0 && |slots[targetSlotId]| + |group| <= MaxStackHeight ==>
        (r <==> slots[targetSlotId] == [] || Top(slots[targetSlotId]) == group[0])
      ensures r ==> 0 <= targetSlotId < SlotCount && !Mergeable(slots[targetSlotId] + group)
    {
      if |group| == 0 then false
      else if !(0 <= targetSlotId < slots.Length) then false
      else
        var target := slots[targetSlotId];
        if |target| + |group| > MaxStackHeight then false
        else if |target| == 0 then true
        else
          var topColor := target[|target| - 1];
          topColor == group[0]
    }

    /** The neighbours of slot `slotId`, collected by scanning every other slot in order. */
    method GetNeighbors(slotId: int) returns (neighbors: seq<int>)
      requires Valid() && 0 <= slotId < SlotCount
      ensures neighbors == Neighbors(slotId)
    {
      neighbors := [];
      for i := 0 to slots.Length
        invariant neighbors == NeighborsBelow(slotId, i)
      {
        if i == slotId {
          assert NeighborsBelow(slotId, i + 1) == neighbors + [];
          continue;
        }
        if Adjacent(slotId, i) {
          neighbors := neighbors + [i];
        } else {
          assert NeighborsBelow(slotId, i + 1) == neighbors + [];
        }
      }
    }

    /**
     * Moves `group` from one slot to another. Refused, with nothing
     * changed, while input is locked. Otherwise takes the lock, cuts as many
     * tiles as the group holds from the source's top and pushes the group
     * onto the target; when the group is the source's top and the slots
     * differ, no tile is created or lost. The settle step
     * (`EvaluateMerges` on the target, then `CheckAutoMerge`) follows.
     */
    method ExecuteMove(sourceSlotId: int, targetSlotId: int, group: seq<Color>) returns (accepted: bool)
      requires Valid()
      requires 0 <= sourceSlotId < SlotCount && 0 <= targetSlotId < SlotCount
      modifies this`inputLocked, slots
      ensures Valid()
      ensures accepted == !old(inputLocked)
      ensures inputLocked
      ensures !accepted ==> slots[..] == old(slots[..])
      ensures accepted ==> slots[..] == ApplyMove(old(slots[..]), sourceSlotId, targetSlotId, group)
      ensures accepted && sourceSlotId != targetSlotId && IsSuffix(group, old(slots[sourceSlotId])) ==>
        Tiles(slots[..]) == Tiles(old(slots[..]))
    {
      if inputLocked {
        return false;
      }
      inputLocked := true;
      slots[sourceSlotId] := RemoveTop(slots[sourceSlotId], |group|);
      ghost var lifted := slots[..];
      for i := 0 to |group|
        invariant inputLocked
        invariant forall k :: 0 <= k < SlotCount && k != targetSlotId ==> slots[k] == lifted[k]
        invariant slots[targetSlotId] == lifted[targetSlotId] + group[..i]
      {
        slots[targetSlotId] := slots[targetSlotId] + [group[i]];
      }
      assert group[..|group|] == group;
      assert slots[..] == lifted[targetSlotId := lifted[targetSlotId] + group];
      accepted := true;
      if sourceSlotId != targetSlotId && IsSuffix(group, old(slots[sourceSlotId])) {
        MoveConservesTiles(old(slots[..]), sourceSlotId, targetSlotId, group);
      }
    }

    /**
     * The settle step after a move onto `slotId`: a stack of at least
     * `MergeThreshold` tiles all of its bottom colour is merged; any other
     * stack is left as it is and the input lock is released.
     */
    method EvaluateMerges(slotId: int) returns (merged: bool)
      requires Valid() && 0 <= slotId < SlotCount && !gameEnded
      modifies this`inputLocked, this`mergeCount, this`score, slots
      ensures Valid()
      ensures merged == Mergeable(old(slots[slotId]))
      ensures merged ==>
        slots[..] == old(slots[..])[slotId := []] && inputLocked == old(inputLocked) &&
        mergeCount == old(mergeCount) + 1 && score == old(score) + MergeReward
      ensures !merged ==>
        slots[..] == old(slots[..]) && !inputLocked &&
        mergeCount == old(mergeCount) && score == old(score)
    {
      var stack := slots[slotId];
      if |stack| >= MergeThreshold {
        var firstColor := stack[0];
        var isUniform := AllColour(stack, firstColor);
        if isUniform {
          ExecuteMerge(slotId);
          return true;
        }
      }
      inputLocked := false;
      merged := false;
    }

    /**
     * Clears slot `slotId` entirely, destroying exactly its tiles, counts
     * one merge and credits `MergeReward` points. `FinishMerge` follows.
     */
    method ExecuteMerge(slotId: int)
      requires Valid() && 0 <= slotId < SlotCount
      modifies this`mergeCount, this`score, slots
      ensures Valid()
      ensures slots[..] == old(slots[..])[slotId := []]
      ensures Tiles(slots[..]) + multiset(old(slots[slotId])) == Tiles(old(slots[..]))
      ensures mergeCount == old(mergeCount) + 1 && score == old(score) + MergeReward
    {
      TilesUpdate(slots[..], slotId, []);
      slots[slotId] := [];
      mergeCount := mergeCount + 1;
      score := score + MergeReward;
    }

    /**
     * The step that ends a merge: once `MergeLimit` merges are counted the
     * game ends; before that the input lock is released.
     */
    method FinishMerge()
      requires Valid()
      modifies this`inputLocked, this`gameEnded, this`overlayShown
      ensures Valid()
      ensures mergeCount >= MergeLimit ==> gameEnded && inputLocked && overlayShown
      ensures mergeCount < MergeLimit ==>
        !inputLocked && gameEnded == old(gameEnded) && overlayShown == old(overlayShown)
    {
      if mergeCount >= MergeLimit {
        EndGame();
      } else {
        inputLocked := false;
      }
    }

    /** Ends the game for good: input stays locked and the overlay is shown. */
    method EndGame()
      modifies this`gameEnded, this`inputLocked, this`overlayShown
      ensures gameEnded && inputLocked && overlayShown
    {
      gameEnded := true;
      inputLocked := true;
      overlayShown := true;
    }

    /**
     * Places dock stack `dock` on slot `targetSlotId`: its tiles are pushed,
     * in order, onto that slot and nothing else on the board changes; the
     * dock stack leaves the waiting list once. `restock` says whether the
     * list ran out during play, in which case a fresh batch follows
     * (`CreateDraggableStacks`); a sweep (`CheckAutoMerge`) follows anyway.
     */
    method PlaceDraggableStack(dock: DockStack, targetSlotId: int) returns (restock: bool)
      requires Valid() && 0 <= targetSlotId < SlotCount
      modifies this`draggableStacks, slots
      ensures Valid()
      ensures slots[..] == old(slots[..])[targetSlotId := old(slots[targetSlotId]) + dock.tiles]
      ensures draggableStacks == RemoveFirst(old(draggableStacks), dock)
      ensures multiset(draggableStacks) == multiset(old(draggableStacks)) - multiset{dock}
      ensures restock <==> draggableStacks == [] && !gameEnded
    {
      PushTiles(targetSlotId, dock.tiles);
      var waiting := draggableStacks;
      var index := IndexOf(waiting, dock);
      if index > -1 {
        waiting := waiting[..index] + waiting[index + 1..];
      }
      SpliceRemovesFirst(draggableStacks, dock, index, waiting);
      draggableStacks := waiting;
      restock := |draggableStacks| == 0 && !gameEnded;
    }

    /**
     * Pushes `tiles`, one by one and in order, onto slot `slotId`; no
     * other slot changes.
     */
    method PushTiles(slotId: int, tiles: seq<Color>)
      requires Valid() && 0 <= slotId < SlotCount
      modifies slots
      ensures Valid()
      ensures slots[..] == old(slots[..])[slotId := old(slots[slotId]) + tiles]
    {
      for i := 0 to |tiles|
        invariant forall k :: 0 <= k < SlotCount && k != slotId ==> slots[k] == old(slots[k])
        invariant slots[slotId] == old(slots[slotId]) + tiles[..i]
      {
        slots[slotId] := slots[slotId] + [tiles[i]];
      }
      assert tiles[..|tiles|] == tiles;
    }

    /**
     * One auto-merge sweep. Does nothing once the game has ended. Otherwise
     * scans the slots in index order and, for the first occupied slot with
     * an occupied neighbour of the same top colour, attempts exactly one
     * move between the two (`Choose` gives its direction) and stops; the
     * attempt is refused while input is locked. The sweep never creates or
     * destroys a tile.
     */
    method CheckAutoMerge()
      requires Valid()
      modifies this`inputLocked, slots
      ensures Valid()
      ensures old(gameEnded) || AutoMove(old(slots[..])).None? ==>
        inputLocked == old(inputLocked) && slots[..] == old(slots[..])
      ensures !old(gameEnded) && AutoMove(old(slots[..])).Some? ==>
        var m := AutoMove(old(slots[..])).value;
        inputLocked &&
        (old(inputLocked) ==> slots[..] == old(slots[..])) &&
        (!old(inputLocked) ==> slots[..] == ApplyMove(old(slots[..]), m.source, m.target, m.group))
      ensures Tiles(slots[..]) == Tiles(old(slots[..]))
    {
      ghost var ss := slots[..];
      if gameEnded {
        return;
      }
      var slotId := 0;
      while slotId < slots.Length
        invariant 0 <= slotId <= SlotCount
        invariant slots[..] == ss && inputLocked == old(inputLocked)
        invariant FindPair(ss, 0) == FindPair(ss, slotId)
      {
        var moved := ScanSlot(slotId);
        if moved {
          return;
        }
        slotId := slotId + 1;
      }
      AutoMoveNone(ss, slotId);
    }

    /**
     * One pass of the sweep's outer loop, over slot `slotId`, reached with
     * nothing found in the slots before it: skips an empty slot; otherwise
     * looks for the slot's first neighbour with the same top colour and, if
     * there is one, makes the sweep's move between the two and reports it;
     * otherwise changes nothing, and the sweep goes on to the next slot.
     */
    method ScanSlot(slotId: int) returns (moved: bool)
      requires Valid() && 0 <= slotId < SlotCount
      requires FindPair(slots[..], 0) == FindPair(slots[..], slotId)
      modifies this`inputLocked, slots
      ensures Valid()
      ensures !moved ==>
        FindPair(old(slots[..]), 0) == FindPair(old(slots[..]), slotId + 1) &&
        inputLocked == old(inputLocked) && slots[..] == old(slots[..])
      ensures moved ==>
        AutoMove(old(slots[..])).Some? &&
        var m := AutoMove(old(slots[..])).value;
        inputLocked &&
        (old(inputLocked) ==> slots[..] == old(slots[..])) &&
        (!old(inputLocked) ==> slots[..] == ApplyMove(old(slots[..]), m.source, m.target, m.group))
      ensures Tiles(slots[..]) == Tiles(old(slots[..]))
    {
      ghost var ss := slots[..];
      var stack := slots[slotId];
      if |stack| == 0 {
        FindPairSkips(ss, slotId);
        return false;
      }
      var topGroup := GetSelectableGroup(slotId);
      var topColor := topGroup[0];
      var isUniformStack := AllColour(stack, topColor);
      var neighbors := GetNeighbors(slotId);
      var found := MatchingNeighbor(slotId, topColor, neighbors);
      if found.None? {
        FindPairSkips(ss, slotId);
        return false;
      }
      var neighborId := neighbors[found.value];
      var neighborTopGroup := GetSelectableGroup(neighborId);
      var neighborTopColor := neighborTopGroup[0];
      var isNeighborUniform := AllColour(slots[neighborId], neighborTopColor);
      FindPairStops(ss, slotId, found.value);
      AutoMoveAt(ss, slotId);
      ExecuteChosenMove(slotId, neighborId, topGroup, neighborTopGroup, isUniformStack, isNeighborUniform);
      return true;
    }

    /**
     * The inner scan of a sweep: the position, in the neighbour list of
     * occupied slot `slotId`, of the first occupied neighbour whose top
     * group has colour `topColor`, the slot's own top colour.
     */
    method MatchingNeighbor(slotId: int, topColor: Color, neighbors: seq<int>) returns (found: Option<nat>)
      requires Valid() && 0 <= slotId < SlotCount && |slots[slotId]| > 0
      requires topColor == Top(slots[slotId])
      requires forall k :: 0 <= k < |neighbors| ==> 0 <= neighbors[k] < SlotCount
      ensures found == FirstMatchAt(slots[..], slotId, neighbors)
    {
      ghost var ss := slots[..];
      var j := 0;
      while j < |neighbors|
        invariant 0 <= j <= |neighbors|
        invariant forall k :: 0 <= k < j ==> !SameTop(ss, slotId, neighbors[k])
      {
        var neighborId := neighbors[j];
        assert 0 <= neighborId < SlotCount;
        var neighbor := slots[neighborId];
        assert neighbor == ss[neighborId];
        if |neighbor| > 0 {
          var neighborTopGroup := GetSelectableGroup(neighborId);
          var neighborTopColor := neighborTopGroup[0];
          assert neighborTopColor == Top(ss[neighborId]);
          if topColor == neighborTopColor {
            FirstMatchAtFound(ss, slotId, neighbors, j);
            return Some(j);
          }
        }
        j := j + 1;
      }
      return None;
    }

    /**
     * The tail of a sweep that found slot `slotId` and its neighbour
     * `neighborId` with the same top colour: the one move between them, in
     * the direction `Choose` gives.
     */
    method ExecuteChosenMove(slotId: int, neighborId: int, topGroup: seq<Color>, neighborTopGroup: seq<Color>,
                             isUniformStack: bool, isNeighborUniform: bool)
      requires Valid() && SameTop(slots[..], slotId, neighborId) && slotId != neighborId
      requires topGroup == TopGroup(slots[slotId]) && neighborTopGroup == TopGroup(slots[neighborId])
      requires isUniformStack == AllColour(slots[slotId], Top(slots[slotId]))
      requires isNeighborUniform == AllColour(slots[neighborId], Top(slots[neighborId]))
      modifies this`inputLocked, slots
      ensures Valid()
      ensures var m := Choose(old(slots[..]), slotId, neighborId);
        inputLocked &&
        (old(inputLocked) ==> slots[..] == old(slots[..])) &&
        (!old(inputLocked) ==> slots[..] == ApplyMove(old(slots[..]), m.source, m.target, m.group))
      ensures Tiles(slots[..]) == Tiles(old(slots[..]))
    {
      if isUniformStack {
        // the slot's stack is uniform: the neighbour's group comes onto it
        var _ := ExecuteMove(neighborId, slotId, neighborTopGroup);
      } else if isNeighborUniform {
        var _ := ExecuteMove(slotId, neighborId, topGroup);
      } else if |topGroup| <= |neighborTopGroup| {
        var _ := ExecuteMove(slotId, neighborId, topGroup);
      } else {
        var _ := ExecuteMove(neighborId, slotId, neighborTopGroup);
      }
    }

    /**
     * The periodic tick: skipped while input is locked, otherwise one
     * sweep.
     */
    method IntervalTick()
      requires Valid()
      modifies this`inputLocked, slots
      ensures Valid()
      ensures old(inputLocked) ==> inputLocked && slots[..] == old(slots[..])
      ensures !old(inputLocked) && (gameEnded || AutoMove(old(slots[..])).None?) ==>
        !inputLocked && slots[..] == old(slots[..])
      ensures !old(inputLocked) && !gameEnded && AutoMove(old(slots[..])).Some? ==>
        var m := AutoMove(old(slots[..])).value;
        inputLocked && slots[..] == ApplyMove(old(slots[..]), m.source, m.target, m.group)
    {
      if inputLocked {
        return;
      }
      CheckAutoMerge();
    }
  }

  /**
   * How the board and the stand-alone move check relate: for a non-empty
   * source, dropping its top group onto a slot is allowed exactly when the
   * stand-alone check, given the board's capacity, accepts the move.
   */
  lemma CanDropAgreesWithIsValidMove(b: Board, source: seq<Color>, targetSlotId: int)
    requires b.Valid() && 0 <= targetSlotId < SlotCount && |source| > 0
    ensures b.CanDropGroup(targetSlotId, TopGroup(source)) <==>
      MergeLogic.IsValidMove(source, b.slots[targetSlotId], |TopGroup(source)|, MaxStackHeight) == Returns(true)
  {
  }

  /**
   * The board's own group picker and the stand-alone top-group utility
   * pick the same tiles from any slot.
   */
  method SelectableGroupAgrees(b: Board, slotId: int) returns (fromBoard: seq<Color>, fromUtility: seq<Color>)
    requires b.Valid() && 0 <= slotId < SlotCount
    ensures fromBoard == fromUtility
    ensures fromBoard == TopGroup(b.slots[slotId])
  {
    fromBoard := b.GetSelectableGroup(slotId);
    fromUtility := MergeLogic.GetTopGroup(b.slots[slotId]);
  }

  /**
   * After the game has ended, neither a move nor a sweep nor a periodic
   * tick changes the board.
   */
  method EndedBoardIsInert(b: Board, sourceSlotId: int, targetSlotId: int, group: seq<Color>)
    requires b.Valid() && b.gameEnded
    requires 0 <= sourceSlotId < SlotCount && 0 <= targetSlotId < SlotCount
    modifies b`inputLocked, b.slots
    ensures b.slots[..] == old(b.slots[..]) && b.inputLocked && b.gameEnded
  {
    var accepted := b.ExecuteMove(sourceSlotId, targetSlotId, group);
    assert !accepted;
    b.CheckAutoMerge();
    b.IntervalTick();
  }
}
