/**
 * The stand-alone merge utilities: whether a stack merges, whether a move
 * is valid, and the top group of a stack. This module keeps its own merge
 * threshold of three tiles, distinct from the board's threshold.
 */
module MergeLogic {
  import opened Stacks

  /** Minimum height of a mergeable stack in this module. */
  const MergeCount: nat := 3

  /**
   * A stack merges when it holds at least `MergeCount` tiles, all of the
   * colour of its bottom tile.
   */
  function CanMerge(stack: seq<Color>): (r: bool)
    ensures |stack| < MergeCount ==> !r
    ensures r ==> |stack| > 0 && AllColour(stack, Top(stack))
  {
    if |stack| < MergeCount then false
    else AllColour(stack, stack[0])
  }

  /**
   * Both directions of the merge rule: a uniform stack of three or more
   * merges, a mixed one or a short one never does; equivalently, a tall
   * enough stack merges exactly when it is its own top group.
   */
  lemma {:induction false} CanMergeIffUniform(stack: seq<Color>)
    ensures CanMerge(stack) <==>
      |stack| >= MergeCount && forall i, j :: 0 <= i < j < |stack| ==> stack[i] == stack[j]
    ensures CanMerge(stack) <==> |stack| >= MergeCount && TopGroup(stack) == stack
  {
    if |stack| >= MergeCount {
      TopGroupWholeIffUniform(stack);
      if forall i, j :: 0 <= i < j < |stack| ==> stack[i] == stack[j] {
        forall i | 0 < i < |stack| ensures stack[i] == stack[0] {
          assert stack[0] == stack[i];
        }
      }
    }
  }

  /**
   * Validity of moving `groupSize` tiles from `source` onto `target`: refused
   * over capacity whatever the colours; accepted onto an empty target;
   * otherwise accepted exactly when the two top colours agree. Reading the
   * top of an empty source raises, which is the `Throws` outcome.
   */
  function IsValidMove(source: seq<Color>, target: seq<Color>, groupSize: int, maxStackHeight: int): (r: Outcome<bool>)
    ensures |target| + groupSize > maxStackHeight ==> r == Returns(false)
    ensures |target| + groupSize <= maxStackHeight && target == [] ==> r == Returns(true)
    ensures r == Throws <==> |target| + groupSize <= maxStackHeight && target != [] && source == []
    ensures r == Returns(true) ==>
      |target| + groupSize <= maxStackHeight && (target == [] || Top(source) == Top(target))
    ensures |target| + groupSize <= maxStackHeight && target != [] && source != [] ==>
      r == Returns(Top(source) == Top(target))
  {
    if |target| + groupSize > maxStackHeight then Returns(false)
    else if |target| == 0 then Returns(true)
    else if |source| == 0 then Throws
    else
      var sourceTopColor := source[|source| - 1];
      var targetTopColor := target[|target| - 1];
      Returns(sourceTopColor == targetTopColor)
  }

  /**
   * The verdict onto an empty target within capacity does not depend on the
   * source at all.
   */
  lemma IsValidMoveEmptyTargetIgnoresSource(s1: seq<Color>, s2: seq<Color>, groupSize: int, maxStackHeight: int)
    requires groupSize <= maxStackHeight
    ensures IsValidMove(s1, [], groupSize, maxStackHeight) == IsValidMove(s2, [], groupSize, maxStackHeight) == Returns(true)
  {
  }

  /**
   * The top group, collected by walking down from the top tile and
   * prepending each tile of the top colour until the colour changes.
   */
  method GetTopGroup(stack: seq<Color>) returns (group: seq<Color>)
    ensures group == TopGroup(stack)
  {
    if |stack| == 0 {
      return [];
    }
    var topColor := stack[|stack| - 1];
    group := [];
    var i := |stack| - 1;
    // the source breaks out of its downward loop at the first other colour
    while i >= 0 && stack[i] == topColor
      invariant -1 <= i < |stack|
      invariant group == stack[i + 1..]
      invariant AllColour(group, topColor)
      decreases i
    {
      group := [stack[i]] + group;
      i := i - 1;
    }
    TopGroupAbove(stack, i);
  }
}
