/**
 * Intersection states, colours and the position sentinels shared by the
 * whole rules engine.  Colours are plain integers, as in the program, so
 * that a board cell, a turn and a prisoner index all use the same values.
 */
module Stones {

  const EMPTY := 0
  const BLACK := 1
  const WHITE := 2

  /** An invalid position; also "no ko point". */
  const NPOS := -1
  /** A pass, as stored in a history node (never on a board). */
  const POS_PASS := -2
  /** A resignation, as stored in a history node (never on a board). */
  const POS_RESIGN := -3

  predicate IsValidColor(color: int) {
    color == BLACK || color == WHITE
  }

  /** A board cell holds one of the three intersection states. */
  predicate IsState(s: int) {
    s == EMPTY || s == BLACK || s == WHITE
  }

  /** BLACK and WHITE swap; any other value is returned as it is. */
  function GetOppositeColor(color: int): (r: int)
    ensures IsValidColor(color) <==> IsValidColor(r)
    ensures IsValidColor(color) ==> r != color
    ensures !IsValidColor(color) ==> r == color
  {
    if color == BLACK then WHITE else if color == WHITE then BLACK else color
  }

  lemma OppositeIsInvolution(color: int)
    ensures GetOppositeColor(GetOppositeColor(color)) == color
  {
  }

  /** Index of a colour in the two-element prisoner table, or -1. */
  function GetColorIndex(color: int): (i: int)
    ensures -1 <= i <= 1
    ensures i == -1 <==> !IsValidColor(color)
    ensures IsValidColor(color) ==> (i == 0 <==> color == BLACK)
  {
    if color == BLACK then 0 else if color == WHITE then 1 else -1
  }

  /** A history position that names an intersection (not pass, resign or setup). */
  predicate IsIntersectionPosition(pos: int) {
    pos >= 0
  }

  predicate IsValidPosition(pos: int, w: int, h: int) {
    pos >= 0 && pos < w * h
  }

  function ToPosition(x: int, y: int, w: int): int {
    x + y * w
  }
}
