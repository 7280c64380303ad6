/**
 What a scan cycle latches, stated independently of the scan order's
 recursion, and how the scanner behaves over consecutive cycles.
 */
module ScannerProperties {
  import opened KeyMatrix
  import opened Scanner

  /** Among the first n intersections nothing is found exactly when none
      of them is eligible. */
  lemma {:induction false} FirstEligibleNone(lines: Lines, previous: Key, n: nat)
    requires lines.Valid() && n <= Cells
    ensures FirstEligible(lines, previous, n).None? <==>
              forall i | 0 <= i < n :: !EligibleAt(lines, previous, i)
  {
    if n > 0 {
      FirstEligibleNone(lines, previous, n - 1);
    }
  }

  /** A found key is the key of an eligible intersection. */
  lemma {:induction false} FirstEligibleWitness(lines: Lines, previous: Key, n: nat)
    requires lines.Valid() && n <= Cells
    ensures FirstEligible(lines, previous, n).Some? ==>
              exists i | 0 <= i < n :: EligibleAt(lines, previous, i) && KeyAt(i) == FirstEligible(lines, previous, n).value
  {
    if n > 0 {
      FirstEligibleWitness(lines, previous, n - 1);
      if FirstEligible(lines, previous, n - 1).None? && EligibleAt(lines, previous, n - 1) {
        assert KeyAt(n - 1) == FirstEligible(lines, previous, n).value;
      }
    }
  }

  /** The first eligible intersection's key is the one found. */
  lemma {:induction false} FirstEligibleFirst(lines: Lines, previous: Key, n: nat, i: nat)
    requires lines.Valid() && n <= Cells && i < n
    requires EligibleAt(lines, previous, i) && forall j | 0 <= j < i :: !EligibleAt(lines, previous, j)
    ensures FirstEligible(lines, previous, n) == Some(KeyAt(i))
  {
    if i < n - 1 {
      FirstEligibleFirst(lines, previous, n - 1, i);
    } else {
      FirstEligibleNone(lines, previous, n - 1);
    }
  }

  /** FirstEligible finds the first eligible intersection among the first n. */
  lemma {:induction false} FirstEligibleIsFirst(lines: Lines, previous: Key, n: nat)
    requires lines.Valid() && n <= Cells
    ensures FirstEligible(lines, previous, n).None? <==>
              forall i | 0 <= i < n :: !EligibleAt(lines, previous, i)
    ensures FirstEligible(lines, previous, n).Some? ==>
              exists i | 0 <= i < n :: EligibleAt(lines, previous, i) && KeyAt(i) == FirstEligible(lines, previous, n).value
    ensures forall i | 0 <= i < n && EligibleAt(lines, previous, i) && (forall j | 0 <= j < i :: !EligibleAt(lines, previous, j)) ::
              FirstEligible(lines, previous, n) == Some(KeyAt(i))
  {
    FirstEligibleNone(lines, previous, n);
    FirstEligibleWitness(lines, previous, n);
    forall i | 0 <= i < n && EligibleAt(lines, previous, i) && (forall j | 0 <= j < i :: !EligibleAt(lines, previous, j))
      ensures FirstEligible(lines, previous, n) == Some(KeyAt(i))
    {
      FirstEligibleFirst(lines, previous, n, i);
    }
  }

  /** Earlier in row-major order. */
  predicate Before(r: nat, c: nat, row: nat, col: nat) {
    r < row || (r == row && c < col)
  }

  /** A smaller scan index is an earlier intersection in row-major order. */
  lemma EarlierIndex(j: nat, row: nat, col: nat)
    requires row < Rows && col < Cols && j < row * Cols + col
    ensures j / Cols < Rows && j % Cols < Cols && Before(j / Cols, j % Cols, row, col)
  {
  }

  /** A cycle latches nothing exactly when no intersection is eligible;
      otherwise it latches the key of the row-major-first eligible one. */
  lemma LatchIsRowMajorFirst(lines: Lines, previous: Key)
    requires lines.Valid()
    ensures Latch(lines, previous).None? <==>
              forall row, col | 0 <= row < Rows && 0 <= col < Cols :: !Eligible(lines, previous, row, col)
    ensures Latch(lines, previous).Some? ==>
              exists row, col | 0 <= row < Rows && 0 <= col < Cols ::
                Eligible(lines, previous, row, col) && GetKey(row, col) == Latch(lines, previous).value
    ensures forall row, col | 0 <= row < Rows && 0 <= col < Cols && Eligible(lines, previous, row, col) &&
                (forall r, c | 0 <= r < Rows && 0 <= c < Cols && Before(r, c, row, col) :: !Eligible(lines, previous, r, c)) ::
              Latch(lines, previous) == Some(GetKey(row, col))
  {
    FirstEligibleIsFirst(lines, previous, Cells);
    forall row, col | 0 <= row < Rows && 0 <= col < Cols
      ensures EligibleAt(lines, previous, row * Cols + col) == Eligible(lines, previous, row, col)
      ensures KeyAt(row * Cols + col) == GetKey(row, col)
    {
      ScanStep(lines, previous, row, col);
    }
    if Latch(lines, previous).Some? {
      var i :| 0 <= i < Cells && EligibleAt(lines, previous, i) && KeyAt(i) == Latch(lines, previous).value;
      assert Eligible(lines, previous, i / Cols, i % Cols);
    }
    forall row, col | 0 <= row < Rows && 0 <= col < Cols && Eligible(lines, previous, row, col) &&
        (forall r, c | 0 <= r < Rows && 0 <= c < Cols && Before(r, c, row, col) :: !Eligible(lines, previous, r, c))
      ensures Latch(lines, previous) == Some(GetKey(row, col))
    {
      ScanStep(lines, previous, row, col);
      var i := row * Cols + col;
      forall j | 0 <= j < i
        ensures !EligibleAt(lines, previous, j)
      {
        EarlierIndex(j, row, col);
      }
    }
  }

  /** A cycle in which nothing is eligible keeps the outbox, so an
      unconsumed key survives it, and resets the previous key. */
  lemma UnconsumedKeySurvives(s: PollState, lines: Lines)
    requires lines.Valid()
    requires forall row, col | 0 <= row < Rows && 0 <= col < Cols :: !Eligible(lines, s.previousKey, row, col)
    ensures Cycle(s, lines) == PollState(s.lastKey, Invalid)
  {
    LatchIsRowMajorFirst(lines, s.previousKey);
  }

  /** `k` is the only wired key pressed, at one intersection or several. */
  predicate HeldAlone(lines: Lines, k: Key)
    requires lines.Valid()
  {
    && k != Invalid
    && (exists row, col | 0 <= row < Rows && 0 <= col < Cols :: lines.Active(row, col) && GetKey(row, col) == k)
    && (forall row, col | 0 <= row < Rows && 0 <= col < Cols && lines.Active(row, col) && GetKey(row, col) != Invalid ::
          GetKey(row, col) == k)
  }

  /** No wired key is pressed. */
  predicate Released(lines: Lines)
    requires lines.Valid()
  {
    forall row, col | 0 <= row < Rows && 0 <= col < Cols && lines.Active(row, col) :: GetKey(row, col) == Invalid
  }

  /** A key held alone is latched unless it was the previous cycle's key. */
  lemma HeldAloneLatch(lines: Lines, k: Key, previous: Key)
    requires lines.Valid() && HeldAlone(lines, k)
    ensures Latch(lines, previous) == if previous == k then None else Some(k)
  {
    LatchIsRowMajorFirst(lines, previous);
    if previous != k {
      var row, col :| 0 <= row < Rows && 0 <= col < Cols && lines.Active(row, col) && GetKey(row, col) == k;
      assert Eligible(lines, previous, row, col);
    }
  }

  /** Holding one key over consecutive cycles, starting from a previous key
      that differs from it: the previous key alternates between the key and
      Invalid, and the outbox holds the key from the first cycle on. */
  lemma {:induction false} HeldKeyAlternates(s: PollState, samples: seq<Lines>, k: Key)
    requires AllValid(samples)
    requires forall i | 0 <= i < |samples| :: HeldAlone(samples[i], k)
    requires s.previousKey != k
    ensures |samples| > 0 ==> Run(s, samples).previousKey == if |samples| % 2 == 1 then k else Invalid
    ensures |samples| > 0 ==> Run(s, samples).lastKey == k
  {
    if samples != [] {
      var n := |samples| - 1;
      var prefix := samples[..n];
      assert forall i | 0 <= i < n :: prefix[i] == samples[i];
      HeldKeyAlternates(s, prefix, k);
      HeldAloneLatch(samples[n], k, Run(s, prefix).previousKey);
    }
  }

  /** Holding on to a key that the cycle just before latched: the first
      cycle suppresses it and resets the previous key, and from then on the
      alternation above takes over, so the previous key is Invalid after an
      odd number of cycles and the key after an even number. */
  lemma {:induction false} HeldKeyAlternatesAfterLatch(s: PollState, samples: seq<Lines>, k: Key)
    requires AllValid(samples)
    requires forall i | 0 <= i < |samples| :: HeldAlone(samples[i], k)
    requires s.previousKey == k
    ensures |samples| > 0 ==> Run(s, samples).previousKey == if |samples| % 2 == 1 then Invalid else k
    ensures |samples| > 0 ==> Run(s, samples).lastKey == if |samples| == 1 then s.lastKey else k
  {
    if samples != [] {
      var n := |samples| - 1;
      var prefix := samples[..n];
      assert forall i | 0 <= i < n :: prefix[i] == samples[i];
      HeldKeyAlternatesAfterLatch(s, prefix, k);
      HeldAloneLatch(samples[n], k, Run(s, prefix).previousKey);
    }
  }

  /** With one key held from a previous key other than it, cycle number n
      (counting from 0) latches it exactly when n is even: cycles 1, 3, 5,
      ... counting from 1. HeldKeyAlternatesAfterLatch covers a key that
      was latched in the cycle just before. */
  lemma HeldKeyLatchedEveryOtherCycle(s: PollState, samples: seq<Lines>, k: Key, n: nat)
    requires AllValid(samples)
    requires forall i | 0 <= i < |samples| :: HeldAlone(samples[i], k)
    requires s.previousKey != k
    requires n < |samples|
    ensures Latch(samples[n], Run(s, samples[..n]).previousKey) == if n % 2 == 0 then Some(k) else None
  {
    var prefix := samples[..n];
    assert forall i | 0 <= i < n :: prefix[i] == samples[i];
    HeldKeyAlternates(s, prefix, k);
    HeldAloneLatch(samples[n], k, Run(s, prefix).previousKey);
  }

  /** Releasing every key for one cycle re-arms the scanner: the outbox is
      kept through the release and the next press latches again, whatever
      the previous key was. */
  lemma ReleaseRearms(s: PollState, released: Lines, pressed: Lines, k: Key)
    requires released.Valid() && pressed.Valid()
    requires Released(released) && HeldAlone(pressed, k)
    ensures Cycle(s, released) == PollState(s.lastKey, Invalid)
    ensures Cycle(Cycle(s, released), pressed) == PollState(k, k)
  {
    UnconsumedKeySurvives(s, released);
    HeldAloneLatch(pressed, k, Invalid);
  }

  /** Within one cycle an earlier pressed key equal to the previous key is
      skipped and a later different one is still latched. Pressing (0,0)
      and (1,2) also activates (0,2) and (1,0) through the shared lines, so
      against a previous Up that sample latches Left. */
  lemma PreviousKeySkippedWithinCycle()
    ensures Latch(Lines([true, true, false], [false, false, true]), Up) == Some(Right)
    ensures Latch(Lines([true, true, false], [true, false, true]), Up) == Some(Left)
    ensures Latch(Lines([true, true, false], [true, false, true]), Invalid) == Some(Up)
  {
    var upThenRight := Lines([true, true, false], [false, false, true]);
    assert FirstEligible(upThenRight, Up, 3) == None;
    assert FirstEligible(upThenRight, Up, 5) == None;
    assert FirstEligible(upThenRight, Up, 6) == Some(Right);
    assert FirstEligible(upThenRight, Up, 8) == Some(Right);
    var twoPressed := Lines([true, true, false], [true, false, true]);
    assert FirstEligible(twoPressed, Up, 2) == None;
    assert FirstEligible(twoPressed, Up, 3) == None;
    assert FirstEligible(twoPressed, Up, 4) == Some(Left);
    assert FirstEligible(twoPressed, Up, 6) == Some(Left);
    assert FirstEligible(twoPressed, Up, 8) == Some(Left);
    assert FirstEligible(twoPressed, Invalid, 1) == Some(Up);
    assert FirstEligible(twoPressed, Invalid, 2) == Some(Up);
    assert FirstEligible(twoPressed, Invalid, 4) == Some(Up);
    assert FirstEligible(twoPressed, Invalid, 6) == Some(Up);
    assert FirstEligible(twoPressed, Invalid, 8) == Some(Up);
  }

  /** Pressing only the unwired intersection (2,1) latches nothing. */
  lemma UnwiredIntersectionSkipped(previous: Key)
    ensures Latch(Lines([false, false, true], [false, true, false]), previous) == None
  {
    LatchIsRowMajorFirst(Lines([false, false, true], [false, true, false]), previous);
  }

  /** The outbox as a consumer sees it: taking twice with no cycle in
      between yields the latched key, then Invalid. */
  method TakeTwice(kb: Keyboard) returns (first: Key, second: Key)
    modifies kb
    ensures first == old(kb.lastKey) && second == Invalid && kb.lastKey == Invalid
  {
    first := kb.TakeLastKey();
    second := kb.TakeLastKey();
  }

  // The cycle as the comments at the previous-key declaration and at the
  // latch describe it: the previous key is reset only when no wired key is
  // pressed, so a key held down is reported once.

  /** With no wired key pressed nothing is latched; when a wired key is
      pressed and still nothing is latched, every pressed wired key is the
      previous key, which therefore is not Invalid. */
  lemma LatchWhenPressed(lines: Lines, previous: Key)
    requires lines.Valid()
    ensures Released(lines) ==> Latch(lines, previous).None?
    ensures !Released(lines) && Latch(lines, previous).None? ==> previous != Invalid
  {
    LatchIsRowMajorFirst(lines, previous);
    if !Released(lines) {
      var row, col :| 0 <= row < Rows && 0 <= col < Cols && lines.Active(row, col) && GetKey(row, col) != Invalid;
      if Latch(lines, previous).None? {
        assert !Eligible(lines, previous, row, col);
      }
    }
  }

  /** The corrected cycle: same latch, reset only on a real release. */
  function CycleIntended(s: PollState, lines: Lines): (t: PollState)
    requires lines.Valid()
    ensures t.previousKey == Invalid <==> Released(lines)
    ensures t.previousKey == Invalid ==> t.lastKey == s.lastKey
  {
    LatchWhenPressed(lines, s.previousKey);
    match Latch(lines, s.previousKey)
    case Some(k) => PollState(k, k)
    case None => PollState(s.lastKey, if Released(lines) then Invalid else s.previousKey)
  }

  /** As written, a key held over three cycles is latched again on the
      third: after the consumer has taken it on the first, it reappears. */
  lemma HeldKeyRelatchedAsWritten()
    ensures var held := Lines([false, true, false], [false, false, true]);
            var afterTake := PollState(Invalid, Right);
            Cycle(afterTake, held) == PollState(Invalid, Invalid) &&
            Cycle(Cycle(afterTake, held), held) == PollState(Right, Right)
  {
    var held := Lines([false, true, false], [false, false, true]);
    assert held.Active(1, 2);
    HeldAloneLatch(held, Right, Right);
    HeldAloneLatch(held, Right, Invalid);
  }

  /** Corrected, a held key is latched on the first cycle and the state
      then stays put for as long as it is held: nothing is latched again. */
  lemma HeldKeyReportedOnce(s: PollState, lines: Lines, k: Key)
    requires lines.Valid() && HeldAlone(lines, k)
    ensures s.previousKey != k ==> CycleIntended(s, lines) == PollState(k, k)
    ensures s.previousKey == k ==> CycleIntended(s, lines) == s
  {
    HeldAloneLatch(lines, k, s.previousKey);
    var row, col :| 0 <= row < Rows && 0 <= col < Cols && lines.Active(row, col) && GetKey(row, col) == k;
    assert !Released(lines);
  }
}
