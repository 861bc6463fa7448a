/**
 The state of one board cell, packed into a small integer the way the
 game stores it: bit 0 says "a bomb lies here", bit 1 says "the player has
 uncovered this cell". No other bit is ever set, so a cell code is 0..3.
 */
module Cell {

  /** A packed cell code. */
  type Code = c: int | 0 <= c < 4

  /** Bit 0 of the code (the source's `& 1`). */
  predicate Bomb(c: Code) {
    c % 2 == 1
  }

  /** Bit 1 of the code (the source's `& 2`). */
  predicate Uncovered(c: Code) {
    c / 2 % 2 == 1
  }

  /** Packs the two flags into a code: the inverse of reading the two bits. */
  function Pack(bomb: bool, uncovered: bool): (c: Code)
    ensures Bomb(c) == bomb
    ensures Uncovered(c) == uncovered
  {
    (if bomb then 1 else 0) + (if uncovered then 2 else 0)
  }

  /** A code is determined by its two bits. */
  lemma UnpackPack(c: Code)
    ensures Pack(Bomb(c), Uncovered(c)) == c
  {
  }

  /** Sets bit 1 and keeps bit 0 (the source's `| 2`). */
  function SetUncovered(c: Code): (r: Code)
    ensures Uncovered(r)
    ensures Bomb(r) == Bomb(c)
    ensures r == Pack(Bomb(c), true)
  {
    if Uncovered(c) then c else c + 2
  }

  lemma SetUncoveredIdempotent(c: Code)
    ensures SetUncovered(SetUncovered(c)) == SetUncovered(c)
  {
  }

  /** The arithmetic bit tests agree with the bitwise operators of the source. */
  lemma BitwiseAgreement(c: Code)
    ensures Bomb(c) <==> (c as bv8) & 1 == 1
    ensures Uncovered(c) <==> (c as bv8) & 2 == 2
    ensures (SetUncovered(c) as bv8) == (c as bv8) | 2
  {
  }
}
