/**
 * Vocabulary shared by the board and the merge utilities: a tile is reduced
 * to its colour, a stack is the sequence of its tiles' colours from bottom
 * to top, and the "top group" is the maximal run of tiles at the top of a
 * stack that share the top tile's colour.
 */
module Stacks {

  /** A tile colour; the game draws them from a small palette. */
  type Color = int

  /** Result of an operation of the game's code that may raise an exception. */
  datatype Outcome<T> = Returns(value: T) | Throws

  datatype Option<T> = None | Some(value: T)

  /** Colour of the top tile. */
  function Top(s: seq<Color>): Color
    requires |s| > 0
  {
    s[|s| - 1]
  }

  /** Every tile of `s` has colour `c`. */
  predicate AllColour(s: seq<Color>, c: Color)
  {
    forall i :: 0 <= i < |s| ==> s[i] == c
  }

  /** `g` is a suffix of `s`: the tiles a move takes from the top of `s`. */
  predicate IsSuffix(g: seq<Color>, s: seq<Color>)
  {
    |g| <= |s| && g == s[|s| - |g|..]
  }

  /**
   * Characterisation of the top group: empty for an empty stack; otherwise
   * a non-empty suffix whose tiles all have the top colour, and the tile
   * just below it (if any) has a different colour.
   */
  ghost predicate IsTopGroup(s: seq<Color>, g: seq<Color>)
  {
    if |s| == 0 then g == []
    else
      0 < |g| && IsSuffix(g, s) && AllColour(g, Top(s)) &&
      (|g| < |s| ==> s[|s| - |g| - 1] != Top(s))
  }

  /** Reference definition of the top group, peeling the stack from the top. */
  function TopGroup(s: seq<Color>): (g: seq<Color>)
    ensures IsTopGroup(s, g)
    decreases |s|
  {
    if |s| == 0 then []
    else if |s| == 1 || s[|s| - 2] != s[|s| - 1] then [s[|s| - 1]]
    else
      var below := s[..|s| - 1];
      var rest := TopGroup(below);
      assert below[|below| - |rest|..] + [s[|s| - 1]] == s[|s| - |rest| - 1..];
      rest + [s[|s| - 1]]
  }

  /** The characterisation determines the top group: it is unique and maximal. */
  lemma {:induction false} TopGroupUnique(s: seq<Color>, g: seq<Color>)
    requires IsTopGroup(s, g)
    ensures g == TopGroup(s)
    decreases |s|
  {
    var n := |s|;
    if n == 0 {
    } else if n == 1 || s[n - 2] != s[n - 1] {
      assert g == [s[n - 1]];
    } else {
      var below := s[..n - 1];
      var h := g[..|g| - 1];
      assert h == below[|below| - |h|..];
      assert |h| < |below| ==> below[|below| - |h| - 1] == s[n - |g| - 1];
      assert IsTopGroup(below, h);
      TopGroupUnique(below, h);
      assert g == h + [s[n - 1]];
    }
  }

  /**
   * Walking down from the top: when every tile above index `i` has the top
   * colour and the tile at `i` (if any) does not, the tiles above `i` meet
   * the characterisation of the top group.
   */
  lemma {:induction false} WalkIsTopGroup(s: seq<Color>, i: int)
    requires -1 <= i < |s| - 1
    requires AllColour(s[i + 1..], Top(s))
    requires i >= 0 ==> s[i] != Top(s)
    ensures IsTopGroup(s, s[i + 1..])
  {
    var g := s[i + 1..];
    assert |s| - |g| == i + 1;
  }

  /** The tiles above the index where the downward walk stops are the top group. */
  lemma {:induction false} TopGroupAbove(s: seq<Color>, i: int)
    requires -1 <= i < |s| - 1
    requires AllColour(s[i + 1..], Top(s))
    requires i >= 0 ==> s[i] != Top(s)
    ensures TopGroup(s) == s[i + 1..]
  {
    WalkIsTopGroup(s, i);
    TopGroupUnique(s, s[i + 1..]);
  }

  /** The top group of a top group is itself. */
  lemma {:induction false} TopGroupIdempotent(s: seq<Color>)
    ensures TopGroup(TopGroup(s)) == TopGroup(s)
  {
    var g := TopGroup(s);
    if |s| > 0 {
      assert Top(g) == Top(s);
      assert g == g[|g| - |g|..];
      TopGroupUnique(g, g);
    }
  }

  /** A non-empty stack is its own top group exactly when it is uniform in colour. */
  lemma {:induction false} TopGroupWholeIffUniform(s: seq<Color>)
    requires |s| > 0
    ensures TopGroup(s) == s <==> AllColour(s, Top(s))
    ensures AllColour(s, s[0]) <==> AllColour(s, Top(s))
  {
    if AllColour(s, Top(s)) {
      assert s == s[|s| - |s|..];
      TopGroupUnique(s, s);
    }
  }

  /**
   * Every tile on a board of stacks, as a multiset of colours.
   */
  ghost function Tiles(ss: seq<seq<Color>>): multiset<Color>
    decreases |ss|
  {
    if |ss| == 0 then multiset{} else multiset(ss[0]) + Tiles(ss[1..])
  }

  /** Replacing one stack swaps exactly its tiles for the new ones. */
  lemma {:induction false} TilesUpdate(ss: seq<seq<Color>>, i: nat, x: seq<Color>)
    requires i < |ss|
    ensures Tiles(ss[i := x]) + multiset(ss[i]) == Tiles(ss) + multiset(x)
    decreases i
  {
    if i == 0 {
      assert ss[i := x][1..] == ss[1..];
    } else {
      var rest := ss[1..];
      assert ss[i := x][1..] == rest[i - 1 := x];
      assert ss[i := x][0] == ss[0];
      assert rest[i - 1] == ss[i];
      TilesUpdate(rest, i - 1, x);
      calc {
        Tiles(ss[i := x]) + multiset(ss[i]);
        multiset(ss[0]) + (Tiles(rest[i - 1 := x]) + multiset(rest[i - 1]));
        multiset(ss[0]) + (Tiles(rest) + multiset(x));
      }
    }
  }
}
