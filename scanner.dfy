/**
 The scanner of Keyboard.cpp: one scan cycle of `keyboardPoll`, the
 single-slot outbox `last_Key` and its take-and-clear reader.

 The GPIO input data registers are abstracted as one sample of the matrix
 lines per cycle (`Lines`): `rowLow[r]` holds when row line r reads logical
 low, `colLow[c]` likewise for column line c.
 */
module Scanner {
  import opened KeyMatrix

  datatype Option<T> = None | Some(value: T)

  /** One sample of the row and column lines; true means "reads low". */
  datatype Lines = Lines(rowLow: seq<bool>, colLow: seq<bool>) {

    predicate Valid() {
      |rowLow| == Rows && |colLow| == Cols
    }

    /** Intersection (row, col) is pressed when both of its lines read low. */
    predicate Active(row: nat, col: nat)
      requires Valid() && row < Rows && col < Cols
    {
      rowLow[row] && colLow[col]
    }
  }

  /** Number of intersections; the scan visits them in row-major order,
      intersection i being (i / Cols, i % Cols). */
  const Cells: nat := Rows * Cols

  /** Intersection (row, col) may be latched in a cycle that started with
      `previous`: it is pressed, wired, and not the previous cycle's key. */
  predicate Eligible(lines: Lines, previous: Key, row: nat, col: nat)
    requires lines.Valid() && row < Rows && col < Cols
  {
    lines.Active(row, col) && GetKey(row, col) != Invalid && GetKey(row, col) != previous
  }

  predicate EligibleAt(lines: Lines, previous: Key, i: nat)
    requires lines.Valid() && i < Cells
  {
    Eligible(lines, previous, i / Cols, i % Cols)
  }

  function KeyAt(i: nat): Key
    requires i < Cells
  {
    GetKey(i / Cols, i % Cols)
  }

  /** The key of the first eligible intersection among the first n in scan
      order, if any. */
  function FirstEligible(lines: Lines, previous: Key, n: nat): (r: Option<Key>)
    requires lines.Valid() && n <= Cells
    ensures r.Some? ==> r.value != Invalid && r.value != previous
    decreases n
  {
    if n == 0 then None
    else
      var earlier := FirstEligible(lines, previous, n - 1);
      if earlier.Some? then earlier
      else if EligibleAt(lines, previous, n - 1) then Some(KeyAt(n - 1))
      else None
  }

  /** The key one scan cycle latches when it starts with `previous`. */
  function Latch(lines: Lines, previous: Key): Option<Key>
    requires lines.Valid()
  {
    FirstEligible(lines, previous, Cells)
  }

  /** The scanner's state between cycles: the outbox and the previous key. */
  datatype PollState = PollState(lastKey: Key, previousKey: Key)

  /** The effect of one scan cycle on the outbox and the previous key. */
  function Cycle(s: PollState, lines: Lines): (t: PollState)
    requires lines.Valid()
    // a key is never latched in two consecutive cycles
    ensures t.previousKey == Invalid || t.previousKey != s.previousKey
    // the outbox either keeps its key or receives the one just latched
    ensures t.lastKey == s.lastKey || (t.lastKey == t.previousKey && t.lastKey != Invalid)
    ensures t.previousKey == Invalid ==> t.lastKey == s.lastKey
    ensures t.previousKey != Invalid ==> t.lastKey == t.previousKey
  {
    match Latch(lines, s.previousKey)
    case Some(k) => PollState(k, k)
    case None => PollState(s.lastKey, Invalid)
  }

  predicate AllValid(samples: seq<Lines>) {
    forall i | 0 <= i < |samples| :: samples[i].Valid()
  }

  /** The state after one scan cycle per sample, in order. */
  function Run(s: PollState, samples: seq<Lines>): PollState
    requires AllValid(samples)
    decreases |samples|
  {
    if samples == [] then s
    else
      var n := |samples| - 1;
      Cycle(Run(s, samples[..n]), samples[n])
  }

  /** Intersection (row, col) is number row * Cols + col in scan order, and
      the scan over it extends the scan over the ones before it. */
  lemma ScanStep(lines: Lines, previous: Key, row: nat, col: nat)
    requires lines.Valid() && row < Rows && col < Cols
    ensures row * Cols + col < Cells
    ensures (row * Cols + col) / Cols == row && (row * Cols + col) % Cols == col
    ensures FirstEligible(lines, previous, row * Cols + col + 1) ==
              if FirstEligible(lines, previous, row * Cols + col).Some? then FirstEligible(lines, previous, row * Cols + col)
              else if Eligible(lines, previous, row, col) then Some(GetKey(row, col))
              else None
    ensures col + 1 == Cols ==> row * Cols + col + 1 == (row + 1) * Cols
  {
  }

  /** The keyboard object; only the outbox `last_Key` is a field. */
  class Keyboard {
    /** The single-slot outbox: the most recently latched key, or Invalid. */
    var lastKey: Key

    constructor ()
      ensures lastKey == Invalid
    {
      lastKey := Invalid;
    }

    /** Takes the latched key and clears the outbox. */
    method TakeLastKey() returns (key: Key)
      modifies this
      ensures key == old(lastKey)
      ensures lastKey == Invalid
    {
      key := lastKey;
      lastKey := Invalid;
    }

    /** One pass of the polling loop. `previousKey` is the loop's local as it
        stood at the start of the cycle; `nextPrevious` is its value at the
        end. `written` lists, in order, the values stored into the outbox. */
    method ScanCycle(lines: Lines, previousKey: Key) returns (nextPrevious: Key, ghost written: seq<Key>)
      requires lines.Valid()
      modifies this
      ensures PollState(lastKey, nextPrevious) == Cycle(PollState(old(lastKey), previousKey), lines)
      ensures written == (match Latch(lines, previousKey) case Some(k) => [k] case None => [])
    {
      var keyFound := false;
      nextPrevious := previousKey;
      written := [];
      for row := 0 to Rows
        invariant keyFound == FirstEligible(lines, previousKey, row * Cols).Some?
        invariant keyFound ==> lastKey == nextPrevious == FirstEligible(lines, previousKey, row * Cols).value
        invariant keyFound ==> written == [lastKey]
        invariant !keyFound ==> lastKey == old(lastKey) && nextPrevious == previousKey && written == []
      {
        for col := 0 to Cols
          invariant keyFound == FirstEligible(lines, previousKey, row * Cols + col).Some?
          invariant keyFound ==> lastKey == nextPrevious == FirstEligible(lines, previousKey, row * Cols + col).value
          invariant keyFound ==> written == [lastKey]
          invariant !keyFound ==> lastKey == old(lastKey) && nextPrevious == previousKey && written == []
        {
          ScanStep(lines, previousKey, row, col);
          if lines.rowLow[row] && lines.colLow[col] {
            var key := GetKey(row, col);
            if key == Invalid {
              continue;
            }
            if !keyFound && key != nextPrevious {
              lastKey := key;
              nextPrevious := key;
              keyFound := true;
              written := written + [key];
            }
          }
        }
      }
      if !keyFound {
        nextPrevious := Invalid;
      }
    }

    /** The first |samples| iterations of the endless polling loop, one
        sample per cycle; the previous key starts out Invalid. */
    method Poll(samples: seq<Lines>) returns (previousKey: Key)
      requires AllValid(samples)
      modifies this
      ensures PollState(lastKey, previousKey) == Run(PollState(old(lastKey), Invalid), samples)
    {
      previousKey := Invalid;
      for i := 0 to |samples|
        invariant PollState(lastKey, previousKey) == Run(PollState(old(lastKey), Invalid), samples[..i])
      {
        ghost var written;
        assert samples[..i + 1][..i] == samples[..i];
        previousKey, written := ScanCycle(samples[i], previousKey);
      }
      assert samples[..|samples|] == samples;
    }
  }
}
