/**
 The key matrix of the control panel: the logical keys, the compile-time
 dimensions of the matrix and the constant table that maps each
 row/column intersection to a key (Keyboard.h, Keyboard.cpp).
 */
module KeyMatrix {

  /** Logical keys. `Invalid` marks an unwired intersection and, in the
      scanner, an empty outbox or "no previous key". */
  datatype Key = Up | Down | Left | Right | Invalid

  const Rows: nat := 3
  const Cols: nat := 3

  /** The wiring of the panel, row by row. */
  const Keymap: seq<seq<Key>> := [
    [Up,   Up,      Up],
    [Left, Up,      Right],
    [Down, Invalid, Down]
  ]

  /** The key wired at intersection (row, col). The source has no bounds
      check, so an index outside the matrix is the caller's error. */
  function GetKey(row: nat, col: nat): (k: Key)
    requires row < Rows && col < Cols
    ensures k == Invalid <==> row == 2 && col == 1
    ensures k == Up <==> row == 0 || (row == 1 && col == 1)
    ensures k == Left <==> row == 1 && col == 0
    ensures k == Right <==> row == 1 && col == 2
    ensures k == Down <==> row == 2 && col != 1
  {
    Keymap[row][col]
  }
}
