/** Discriminants shared between the rules engine and its Rust binding
    (shared/constants.h). The header declares them as plain preprocessor
    integers; the binding sees them as unsigned 32-bit constants. */
module Constants {

  const PIECE_NONE: nat := 0
  const PIECE_PAWN: nat := 1
  const PIECE_BISHOP: nat := 2
  const PIECE_KNIGHT: nat := 3
  const PIECE_ROOK: nat := 4
  const PIECE_QUEEN: nat := 5
  const PIECE_KING: nat := 6

  const WHITE: nat := 0
  const BLACK: nat := 1

  /** The seven piece-kind codes in the order the header lists them. */
  function PieceCodes(): (codes: seq<nat>)
    ensures |codes| == 7
    ensures forall i :: 0 <= i < |codes| ==> codes[i] == i
  {
    [PIECE_NONE, PIECE_PAWN, PIECE_BISHOP, PIECE_KNIGHT, PIECE_ROOK, PIECE_QUEEN, PIECE_KING]
  }

  /** No two piece kinds share a code. */
  lemma PieceCodesDistinct()
    ensures forall i, j :: 0 <= i < j < |PieceCodes()| ==> PieceCodes()[i] != PieceCodes()[j]
  {
  }

  /** Every piece-kind code fits in the low nibble of a piece byte. */
  lemma PieceCodesFitNibble()
    ensures forall i :: 0 <= i < |PieceCodes()| ==> PieceCodes()[i] < 16
  {
  }

  /** The two colours are distinct and each fits in a single bit. */
  lemma ColourCodesFitBit()
    ensures WHITE != BLACK
    ensures WHITE < 2 && BLACK < 2
  {
  }
}
