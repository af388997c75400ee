/**
 * The value-level rules of the board: its constants, the slot layout and
 * neighbour relation, how seed and dock stacks are generated from random
 * draws, what a move and a merge do to the slots, and which move one
 * auto-merge sweep chooses.
 */
module BoardRules {
  import opened Stacks

  /** Height at which the board merges a uniform stack. */
  const MergeThreshold: nat := 7
  /** Capacity of a slot, consulted only by the drop check. */
  const MaxStackHeight: nat := 6
  /** The board is a grid of five rows of five slots. */
  const GridRows: nat := 5
  const GridCols: nat := 5
  const SlotCount: nat := 25
  /** Points credited per merged stack. */
  const MergeReward: nat := 100
  /** Number of merges after which the game ends. */
  const MergeLimit: nat := 3
  /** The palette the generators draw from. */
  const AvailableColors: seq<Color> := [0, 1, 2]
  /** Slots seeded with a stack when the board is built. */
  const InitialSlots: seq<nat> := [0, 12, 24]
  /** Number of dock positions, hence of dock stacks per batch. */
  const DockCount: nat := 3
  const SeedMinHeight: nat := 2
  const DockMinHeight: nat := 3

  // ---------------------------------------------------------------------
  // Slot layout

  /** Slots are laid out row by row, so slot `id` sits at row id / 5, column id % 5. */
  function Row(id: int): int { id / GridCols }
  function Col(id: int): int { id % GridCols }

  /** Every slot id names one cell of the grid, row by row. */
  lemma SlotInGrid(id: int)
    requires 0 <= id < SlotCount
    ensures 0 <= Row(id) < GridRows && 0 <= Col(id) < GridCols
    ensures id == Row(id) * GridCols + Col(id)
  {
  }

  /**
   * Hex adjacency between the cells at (row, column) coordinates, where odd
   * columns are shifted down half a hex: same column one row apart; an even
   * column touches the columns beside it at the same row and the row above;
   * an odd column at the same row and the row below.
   */
  predicate AdjacentCells(ra: int, ca: int, rb: int, cb: int)
  {
    (ca == cb && (rb == ra + 1 || rb == ra - 1)) ||
    ((cb == ca + 1 || cb == ca - 1) &&
     (if ca % 2 == 0 then rb == ra || rb == ra - 1 else rb == ra || rb == ra + 1))
  }

  /** Adjacency of two slots of the board. */
  predicate Adjacent(a: int, b: int)
  {
    0 <= a < SlotCount && 0 <= b < SlotCount && AdjacentCells(Row(a), Col(a), Row(b), Col(b))
  }

  /**
   * One hundred times the squared distance between cell centres, in world
   * units. Centres sit at x = (col - 2) * 0.9 and
   * z = (row - 2) * h + (col % 2) * h / 2 with h = 0.6 * sqrt(3), so
   * dx * dx = 0.81 * dc * dc and dz * dz = 0.27 * (2 * dr + dp) * (2 * dr + dp),
   * where dc, dr and dp are the differences of column, row and column parity.
   */
  function CellDistance100(ra: int, ca: int, rb: int, cb: int): int
  {
    var dc := ca - cb;
    var e := 2 * (ra - rb) + (ca % 2 - cb % 2);
    81 * dc * dc + 27 * e * e
  }

  /** One hundred times the squared distance between two slot centres. */
  function SquaredDistance100(a: int, b: int): int
  {
    CellDistance100(Row(a), Col(a), Row(b), Col(b))
  }

  /**
   * For two different cells, the hex rule holds exactly when their centres
   * lie strictly between 0.8 and 1.2 apart (squared: 0.64 and 1.44).
   */
  lemma {:induction false} AdjacentCellsMatchDistance(ra: int, ca: int, rb: int, cb: int)
    requires 0 <= ca < GridCols && 0 <= cb < GridCols && (ra, ca) != (rb, cb)
    ensures AdjacentCells(ra, ca, rb, cb) <==> 64 < CellDistance100(ra, ca, rb, cb) < 144
  {
    var dc := ca - cb;
    var dr := ra - rb;
    var e := 2 * dr + (ca % 2 - cb % 2);
    if dc == 1 || dc == -1 {
      ColumnParity(ca, cb);
    }
    SquaresInBand(dc, e);
  }

  /** Columns side by side have different parities. */
  lemma ColumnParity(ca: int, cb: int)
    requires ca - cb == 1 || ca - cb == -1
    ensures ca % 2 != cb % 2
  {
  }

  /**
   * The distance band in terms of the column difference `dc` and the
   * doubled row offset `e`: only a vertical step (`e` is 2 or -2) or a
   * diagonal step (`e` is 1 or -1) lands strictly inside it.
   */
  lemma SquaresInBand(dc: int, e: int)
    requires dc == 0 ==> e == 2 || e == -2 || e >= 4 || e <= -4
    requires dc == 1 || dc == -1 ==> e == 1 || e == -1 || e >= 3 || e <= -3
    ensures 64 < 81 * dc * dc + 27 * e * e < 144 <==>
      (dc == 0 && (e == 2 || e == -2)) || ((dc == 1 || dc == -1) && (e == 1 || e == -1))
  {
    SquareAtLeast(e, 0);
    if dc == 0 {
      if e == 2 || e == -2 {
        assert e * e == 4;
      } else {
        SquareAtLeast(e, 4);
      }
    } else if dc == 1 || dc == -1 {
      assert dc * dc == 1;
      if e == 1 || e == -1 {
        assert e * e == 1;
      } else {
        SquareAtLeast(e, 3);
      }
    } else {
      SquareAtLeast(dc, 2);
    }
  }

  /** A number at least `k` away from zero has a square of at least `k * k`. */
  lemma {:induction false} SquareAtLeast(x: int, k: int)
    requires k >= 0 && (x >= k || x <= -k)
    ensures x * x >= k * k
    decreases if x >= 0 then x else -x
  {
    if x > k {
      SquareAtLeast(x - 1, k);
      assert x * x == (x - 1) * (x - 1) + 2 * x - 1;
    } else if x < -k {
      SquareAtLeast(x + 1, k);
      assert x * x == (x + 1) * (x + 1) - 2 * x - 1;
    }
  }

  /**
   * The integer rule picks out exactly the pairs of distinct slots whose
   * centres lie strictly between 0.8 and 1.2 apart. Neighbours are about
   * 1.04 apart and every other pair at least 1.8, so the float test cannot
   * round the other way.
   */
  lemma {:induction false} AdjacentMatchesLayout(a: int, b: int)
    requires 0 <= a < SlotCount && 0 <= b < SlotCount && a != b
    ensures Adjacent(a, b) <==> 64 < SquaredDistance100(a, b) < 144
  {
    SlotInGrid(a);
    SlotInGrid(b);
    AdjacentCellsMatchDistance(Row(a), Col(a), Row(b), Col(b));
  }

  /** Adjacency is symmetric and irreflexive. */
  lemma AdjacentSymmetric(a: int, b: int)
    ensures Adjacent(a, b) <==> Adjacent(b, a)
    ensures !Adjacent(a, a)
  {
  }

  /**
   * The neighbours of `id` among slots 0 .. n-1, in increasing order, as the
   * scan over all slots collects them.
   */
  function NeighborsBelow(id: int, n: nat): (ns: seq<int>)
    ensures forall i :: 0 <= i < |ns| ==> 0 <= ns[i] < n && ns[i] != id && Adjacent(id, ns[i])
    ensures forall i, j :: 0 <= i < j < |ns| ==> ns[i] < ns[j]
    decreases n
  {
    if n == 0 then []
    else
      var below := NeighborsBelow(id, n - 1);
      below + (if n - 1 != id && Adjacent(id, n - 1) then [n - 1] else [])
  }

  /** Every neighbour below `n` is collected. */
  lemma {:induction false} NeighborsBelowComplete(id: int, n: nat, k: int)
    requires 0 <= k < n && k != id && Adjacent(id, k)
    ensures k in NeighborsBelow(id, n)
    decreases n
  {
    if k < n - 1 {
      NeighborsBelowComplete(id, n - 1, k);
    }
  }

  /** The neighbour list of a slot. */
  function Neighbors(id: int): seq<int>
  {
    NeighborsBelow(id, SlotCount)
  }

  /** A slot is listed as a neighbour exactly when it is adjacent. */
  lemma NeighborsMembers(a: int, b: int)
    ensures b in Neighbors(a) <==> Adjacent(a, b)
  {
    if Adjacent(a, b) {
      AdjacentSymmetric(a, b);
      NeighborsBelowComplete(a, SlotCount, b);
    }
  }

  /** Neighbourhood is mutual, and a slot is never its own neighbour. */
  lemma NeighborsSymmetric(a: int, b: int)
    ensures b in Neighbors(a) <==> a in Neighbors(b)
    ensures a !in Neighbors(a)
  {
    NeighborsMembers(a, b);
    NeighborsMembers(b, a);
    NeighborsMembers(a, a);
    AdjacentSymmetric(a, b);
  }

  // ---------------------------------------------------------------------
  // Stack generation

  /**
   * The random draws behind one generated stack, each the index of a
   * choice out of three: the extra height, the top colour, and the colour
   * of every tile below the top two, bottom first.
   */
  datatype StackDraws = StackDraws(heightRoll: int, topRoll: int, lowerRolls: seq<int>)

  predicate IsRoll(r: int)
  {
    0 <= r < |AvailableColors|
  }

  /** Draws as a generator with base height `minHeight` consumes them. */
  predicate WellFormedDraws(d: StackDraws, minHeight: nat)
  {
    minHeight >= 2 && IsRoll(d.heightRoll) && IsRoll(d.topRoll) &&
    |d.lowerRolls| == minHeight + d.heightRoll - 2 &&
    forall k :: 0 <= k < |d.lowerRolls| ==> IsRoll(d.lowerRolls[k])
  }

  /**
   * The stack generated from `d`: between `minHeight` and `minHeight + 2`
   * tiles, colours from the palette, and the top two tiles of one colour.
   */
  function GeneratedStack(minHeight: nat, d: StackDraws): (s: seq<Color>)
    requires WellFormedDraws(d, minHeight)
    ensures minHeight <= |s| <= minHeight + 2
    ensures forall i :: 0 <= i < |s| ==> s[i] in AvailableColors
    ensures |s| == |d.lowerRolls| + 2
    ensures s[|s| - 1] == s[|s| - 2] == AvailableColors[d.topRoll]
    ensures forall k :: 0 <= k < |d.lowerRolls| ==> s[k] == AvailableColors[d.lowerRolls[k]]
  {
    var lower := seq(|d.lowerRolls|, k requires 0 <= k < |d.lowerRolls| => AvailableColors[d.lowerRolls[k]]);
    var top := AvailableColors[d.topRoll];
    lower + [top, top]
  }

  /** A generated stack offers a top group of at least two tiles. */
  lemma GeneratedTopGroup(minHeight: nat, d: StackDraws)
    requires WellFormedDraws(d, minHeight)
    ensures |TopGroup(GeneratedStack(minHeight, d))| >= 2
  {
  }

  // ---------------------------------------------------------------------
  // Moves and merges

  /**
   * What is left of `s` after cutting `k` tiles from its top; a stack
   * shorter than `k` is emptied.
   */
  function RemoveTop(s: seq<Color>, k: nat): (r: seq<Color>)
    ensures k <= |s| ==> |r| == |s| - k && r + s[|s| - k..] == s
    ensures k > |s| ==> r == []
  {
    s[..if k <= |s| then |s| - k else 0]
  }

  /** A move from one slot to another, carrying `group` (bottom to top). */
  datatype Move = Move(source: int, target: int, group: seq<Color>)

  /**
   * The slots after moving `group` from `source` onto `target`: the source
   * loses as many top tiles as the group holds, then the group is pushed,
   * in order, onto the target.
   */
  function ApplyMove(ss: seq<seq<Color>>, source: int, target: int, group: seq<Color>): (r: seq<seq<Color>>)
    requires 0 <= source < |ss| && 0 <= target < |ss|
    ensures |r| == |ss|
    ensures forall i :: 0 <= i < |ss| && i != source && i != target ==> r[i] == ss[i]
    ensures source != target ==> r[source] == RemoveTop(ss[source], |group|) && r[target] == ss[target] + group
    ensures source == target ==> r[source] == RemoveTop(ss[source], |group|) + group
  {
    var lifted := ss[source := RemoveTop(ss[source], |group|)];
    lifted[target := lifted[target] + group]
  }

  /**
   * Moving a group that really is the top of its source between two
   * different slots neither creates nor destroys a tile.
   */
  lemma {:induction false} MoveConservesTiles(ss: seq<seq<Color>>, source: int, target: int, group: seq<Color>)
    requires 0 <= source < |ss| && 0 <= target < |ss| && source != target
    requires IsSuffix(group, ss[source])
    ensures Tiles(ApplyMove(ss, source, target, group)) == Tiles(ss)
  {
    var rest := RemoveTop(ss[source], |group|);
    assert ss[source] == rest + group;
    var lifted := ss[source := rest];
    var moved := ApplyMove(ss, source, target, group);
    var onTarget := lifted[target];
    assert moved == lifted[target := onTarget + group];
    TilesUpdate(ss, source, rest);
    TilesUpdate(lifted, target, onTarget + group);
    var before, middle, after := Tiles(ss), Tiles(lifted), Tiles(moved);
    assert middle + multiset(rest + group) == before + multiset(rest);
    assert after + multiset(onTarget) == middle + multiset(onTarget + group);
    forall x ensures after[x] == before[x] {
      assert (middle + multiset(rest + group))[x] == (before + multiset(rest))[x];
      assert (after + multiset(onTarget))[x] == (middle + multiset(onTarget + group))[x];
    }
  }

  /** A stack the board merges: at least `MergeThreshold` tiles, all of its bottom tile's colour. */
  predicate Mergeable(s: seq<Color>)
  {
    |s| >= MergeThreshold && AllColour(s, s[0])
  }

  /**
   * The board merges a stack exactly when it is tall enough and is its own
   * top group; a drop that respects capacity never yields such a stack.
   */
  lemma {:induction false} MergeableIff(s: seq<Color>)
    ensures Mergeable(s) <==> |s| >= MergeThreshold && TopGroup(s) == s
    ensures |s| <= MaxStackHeight ==> !Mergeable(s)
  {
    if |s| > 0 {
      TopGroupWholeIffUniform(s);
    }
  }

  // ---------------------------------------------------------------------
  // The auto-merge sweep

  /** Slots `a` and `b` are both occupied and show the same top colour. */
  predicate SameTop(ss: seq<seq<Color>>, a: int, b: int)
  {
    0 <= a < |ss| && 0 <= b < |ss| && |ss[a]| > 0 && |ss[b]| > 0 && Top(ss[a]) == Top(ss[b])
  }

  /** Position in `ns` of the first neighbour whose top colour matches slot `slot`'s. */
  function FirstMatchAt(ss: seq<seq<Color>>, slot: int, ns: seq<int>): (r: Option<nat>)
    ensures r.Some? ==> r.value < |ns| && SameTop(ss, slot, ns[r.value])
    ensures r.Some? ==> forall k :: 0 <= k < r.value ==> !SameTop(ss, slot, ns[k])
    ensures r.None? <==> forall k :: 0 <= k < |ns| ==> !SameTop(ss, slot, ns[k])
    decreases |ns|
  {
    if |ns| == 0 then None
    else if SameTop(ss, slot, ns[0]) then Some(0)
    else
      match FirstMatchAt(ss, slot, ns[1..])
      case None => None
      case Some(k) => Some(k + 1)
  }

  /** A matching neighbour with no match before it is the first match. */
  lemma FirstMatchAtFound(ss: seq<seq<Color>>, slot: int, ns: seq<int>, j: nat)
    requires j < |ns| && SameTop(ss, slot, ns[j])
    requires forall k :: 0 <= k < j ==> !SameTop(ss, slot, ns[k])
    ensures FirstMatchAt(ss, slot, ns) == Some(j)
  {
    var r := FirstMatchAt(ss, slot, ns);
    assert r.Some?;
  }

  /**
   * The neighbour list is in increasing slot order, so the first match in
   * it is the lowest-numbered matching neighbour.
   */
  lemma FirstMatchIsFirstNeighbor(ss: seq<seq<Color>>, slot: int, j: nat)
    requires FirstMatchAt(ss, slot, Neighbors(slot)) == Some(j)
    ensures forall b :: Adjacent(slot, b) && b < Neighbors(slot)[j] ==> !SameTop(ss, slot, b)
  {
    var ns := Neighbors(slot);
    forall b | Adjacent(slot, b) && b < ns[j] ensures !SameTop(ss, slot, b) {
      NeighborAt(slot, b);
      var k :| 0 <= k < |ns| && ns[k] == b;
      IncreasingIndex(ns, k, j);
    }
  }

  /** In a strictly increasing sequence a smaller element sits at a smaller index. */
  lemma IncreasingIndex(ns: seq<int>, k: nat, j: nat)
    requires forall i, i' :: 0 <= i < i' < |ns| ==> ns[i] < ns[i']
    requires k < |ns| && j < |ns| && ns[k] < ns[j]
    ensures k < j
  {
  }

  /** Every neighbour of `slot` occurs somewhere in its neighbour list. */
  lemma NeighborAt(slot: int, b: int)
    requires Adjacent(slot, b)
    ensures exists k :: 0 <= k < |Neighbors(slot)| && Neighbors(slot)[k] == b
  {
    NeighborsMembers(slot, b);
  }

  /** No match in the neighbour list means no matching neighbour at all. */
  lemma NoMatchingNeighbor(ss: seq<seq<Color>>, slot: int)
    requires FirstMatchAt(ss, slot, Neighbors(slot)) == None
    ensures forall b :: Adjacent(slot, b) ==> !SameTop(ss, slot, b)
  {
    forall b | Adjacent(slot, b) ensures !SameTop(ss, slot, b) {
      NeighborsMembers(slot, b);
    }
  }

  /** The slot and neighbour a sweep settles on. */
  datatype Pair = Pair(slot: int, neighbor: int)

  /**
   * The first slot, from `from` on in index order, with a neighbour of the
   * same top colour, and its first such neighbour; `None` when there is
   * no such slot. `FindPairIsFirst` states that it is the first pair,
   * and `FindPairNoneIff` that `None` means there is no pair at all.
   */
  function FindPair(ss: seq<seq<Color>>, from: nat): (r: Option<Pair>)
    requires |ss| == SlotCount
    ensures r.Some? ==> from <= r.value.slot < SlotCount && r.value.slot != r.value.neighbor
    ensures r.Some? ==> SameTop(ss, r.value.slot, r.value.neighbor)
    decreases SlotCount - from
  {
    if from >= SlotCount then None
    else if |ss[from]| == 0 then FindPair(ss, from + 1)
    else
      var ns := Neighbors(from);
      match FirstMatchAt(ss, from, ns)
      case Some(j) => Some(Pair(from, ns[j]))
      case None => FindPair(ss, from + 1)
  }

  /**
   * The pair a sweep settles on is a pair of neighbours, no slot before it
   * has a same-topped neighbour, and no smaller neighbour of its slot
   * matches.
   */
  lemma {:induction false} FindPairIsFirst(ss: seq<seq<Color>>, from: nat)
    requires |ss| == SlotCount
    ensures var r := FindPair(ss, from);
      r.Some? ==>
        Adjacent(r.value.slot, r.value.neighbor) &&
        (forall a, b :: from <= a < r.value.slot && Adjacent(a, b) ==> !SameTop(ss, a, b)) &&
        (forall b :: Adjacent(r.value.slot, b) && b < r.value.neighbor ==> !SameTop(ss, r.value.slot, b))
    decreases SlotCount - from
  {
    if from < SlotCount {
      var ns := Neighbors(from);
      if |ss[from]| > 0 && FirstMatchAt(ss, from, ns).Some? {
        var j := FirstMatchAt(ss, from, ns).value;
        assert FindPair(ss, from) == Some(Pair(from, ns[j]));
        FirstMatchIsFirstNeighbor(ss, from, j);
      } else {
        assert FindPair(ss, from) == FindPair(ss, from + 1);
        NoPairAtSlot(ss, from);
        FindPairIsFirst(ss, from + 1);
        var r := FindPair(ss, from);
        if r.Some? {
          forall a, b | from <= a < r.value.slot && Adjacent(a, b)
            ensures !SameTop(ss, a, b)
          {
            if a > from {
              assert from + 1 <= a < r.value.slot;
            }
          }
        }
      }
    }
  }

  /** A slot that is empty or has no match in its list has no same-topped neighbour. */
  lemma NoPairAtSlot(ss: seq<seq<Color>>, slot: int)
    requires 0 <= slot < |ss|
    requires |ss[slot]| == 0 || FirstMatchAt(ss, slot, Neighbors(slot)) == None
    ensures forall b :: Adjacent(slot, b) ==> !SameTop(ss, slot, b)
  {
    if |ss[slot]| > 0 {
      NoMatchingNeighbor(ss, slot);
    }
  }

  /** No pair is found exactly when no slot from `from` on has a same-topped neighbour. */
  lemma {:induction false} FindPairNoneIff(ss: seq<seq<Color>>, from: nat)
    requires |ss| == SlotCount
    ensures FindPair(ss, from).None? <==>
      forall a, b :: from <= a < SlotCount && Adjacent(a, b) ==> !SameTop(ss, a, b)
    decreases SlotCount - from
  {
    if from < SlotCount {
      var ns := Neighbors(from);
      if |ss[from]| > 0 && FirstMatchAt(ss, from, ns).Some? {
        var j := FirstMatchAt(ss, from, ns).value;
        assert FindPair(ss, from) == Some(Pair(from, ns[j]));
        assert Adjacent(from, ns[j]) && SameTop(ss, from, ns[j]);
      } else {
        assert FindPair(ss, from) == FindPair(ss, from + 1);
        NoPairAtSlot(ss, from);
        FindPairNoneIff(ss, from + 1);
        if FindPair(ss, from).None? {
          forall a, b | from <= a < SlotCount && Adjacent(a, b)
            ensures !SameTop(ss, a, b)
          {
            if a > from {
              assert from + 1 <= a < SlotCount;
            }
          }
        }
      }
    }
  }

  /** A sweep stops at occupied slot `slot` when its neighbour list holds a match. */
  lemma FindPairStops(ss: seq<seq<Color>>, slot: nat, j: nat)
    requires |ss| == SlotCount && slot < SlotCount && |ss[slot]| > 0
    requires FirstMatchAt(ss, slot, Neighbors(slot)) == Some(j)
    ensures FindPair(ss, slot) == Some(Pair(slot, Neighbors(slot)[j]))
  {
  }

  /** A sweep moves past a slot that is empty or has no matching neighbour. */
  lemma FindPairSkips(ss: seq<seq<Color>>, slot: nat)
    requires |ss| == SlotCount && slot < SlotCount
    requires |ss[slot]| == 0 || FirstMatchAt(ss, slot, Neighbors(slot)) == None
    ensures FindPair(ss, slot) == FindPair(ss, slot + 1)
  {
  }

  /**
   * Direction of the sweep's move between slot `s` and its matching
   * neighbour `n`: the neighbour's group comes onto `s` when `s` is
   * uniform; otherwise `s`'s group goes onto `n` when `n` is uniform;
   * otherwise the smaller top group moves, ties moving `s`'s group.
   */
  function Choose(ss: seq<seq<Color>>, s: int, n: int): (m: Move)
    requires SameTop(ss, s, n) && s != n
    ensures (m.source == s && m.target == n) || (m.source == n && m.target == s)
    ensures m.group == TopGroup(ss[m.source]) && |m.group| > 0
    ensures AllColour(m.group, Top(ss[m.target]))
    ensures AllColour(ss[s], Top(ss[s])) ==> m.target == s
    ensures !AllColour(ss[s], Top(ss[s])) && AllColour(ss[n], Top(ss[n])) ==> m.target == n
    ensures !AllColour(ss[s], Top(ss[s])) && !AllColour(ss[n], Top(ss[n])) ==>
      |m.group| <= |TopGroup(ss[m.target])|
    ensures !AllColour(ss[s], Top(ss[s])) && !AllColour(ss[n], Top(ss[n])) ==>
      (m.source == s <==> |TopGroup(ss[s])| <= |TopGroup(ss[n])|)
  {
    var topGroup := TopGroup(ss[s]);
    var neighborTopGroup := TopGroup(ss[n]);
    if AllColour(ss[s], Top(ss[s])) then Move(n, s, neighborTopGroup)
    else if AllColour(ss[n], Top(ss[n])) then Move(s, n, topGroup)
    else if |topGroup| <= |neighborTopGroup| then Move(s, n, topGroup)
    else Move(n, s, neighborTopGroup)
  }

  /**
   * When either stack is uniform, the sweep's move lands on a uniform stack,
   * and the stack it builds there is uniform too.
   */
  lemma {:induction false} ChooseKeepsUniformTarget(ss: seq<seq<Color>>, s: int, n: int)
    requires SameTop(ss, s, n) && s != n
    requires AllColour(ss[s], Top(ss[s])) || AllColour(ss[n], Top(ss[n]))
    ensures var m := Choose(ss, s, n);
      AllColour(ss[m.target], Top(ss[m.target])) &&
      AllColour(ss[m.target] + m.group, Top(ss[m.target]))
  {
    var m := Choose(ss, s, n);
    var t := if AllColour(ss[s], Top(ss[s])) then ss[s] else ss[n];
    assert t == ss[m.target];
    UniformExtends(t, m.group);
  }

  /** Putting tiles of a uniform stack's colour on it keeps it uniform. */
  lemma {:induction false} UniformExtends(t: seq<Color>, g: seq<Color>)
    requires |t| > 0 && AllColour(t, Top(t)) && AllColour(g, Top(t))
    ensures AllColour(t + g, Top(t))
  {
    forall i | 0 <= i < |t + g|
      ensures (t + g)[i] == Top(t)
    {
      if i >= |t| {
        assert (t + g)[i] == g[i - |t|];
      }
    }
  }

  /** The single move one sweep makes, if any. */
  function AutoMove(ss: seq<seq<Color>>): Option<Move>
    requires |ss| == SlotCount
  {
    match FindPair(ss, 0)
    case None => None
    case Some(p) => Some(Choose(ss, p.slot, p.neighbor))
  }

  /**
   * A sweep that has reached slot `slot` without finding anything, and then
   * finds a pair at `slot`, makes the move `Choose` gives for that pair.
   */
  lemma AutoMoveAt(ss: seq<seq<Color>>, slot: nat)
    requires |ss| == SlotCount && slot < SlotCount
    requires FindPair(ss, 0) == FindPair(ss, slot) && FindPair(ss, slot).Some? && FindPair(ss, slot).value.slot == slot
    ensures AutoMove(ss) == Some(Choose(ss, slot, FindPair(ss, slot).value.neighbor))
  {
  }

  /** A sweep that passes every slot without finding anything makes no move. */
  lemma AutoMoveNone(ss: seq<seq<Color>>, slot: nat)
    requires |ss| == SlotCount && slot >= SlotCount
    requires FindPair(ss, 0) == FindPair(ss, slot)
    ensures AutoMove(ss).None?
  {
  }

  /**
   * A sweep finds nothing to do exactly when no two neighbouring occupied
   * slots show the same top colour; when it does move, it moves a real top
   * group between two neighbours onto a matching colour, so the board keeps
   * every tile.
   */
  lemma {:induction false} AutoMoveSound(ss: seq<seq<Color>>)
    requires |ss| == SlotCount
    ensures AutoMove(ss).None? <==> forall a, b :: 0 <= a < SlotCount && Adjacent(a, b) ==> !SameTop(ss, a, b)
    ensures AutoMove(ss).Some? ==>
      var m := AutoMove(ss).value;
      Adjacent(m.source, m.target) && m.source != m.target &&
      m.group == TopGroup(ss[m.source]) && |m.group| > 0 && m.group[0] == Top(ss[m.target]) &&
      Tiles(ApplyMove(ss, m.source, m.target, m.group)) == Tiles(ss)
  {
    FindPairIsFirst(ss, 0);
    FindPairNoneIff(ss, 0);
    match FindPair(ss, 0)
    case None =>
    case Some(p) =>
      var m := Choose(ss, p.slot, p.neighbor);
      AdjacentSymmetric(p.slot, p.neighbor);
      assert IsSuffix(m.group, ss[m.source]);
      MoveConservesTiles(ss, m.source, m.target, m.group);
  }
}
