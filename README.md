# Matrix keyboard scanner — Dafny model

This project models the key-resolution logic of an STM32 control panel's
matrix keyboard driver (class `Keyboard`, files `Keyboard.h` and
`Keyboard.cpp`). The driver has three parts:

- A constant 3×3 keymap maps each row/column intersection to a logical key
  (`UP`, `DOWN`, `LEFT`, `RIGHT`) or to `INVALID` for an unwired cell.
- The single-slot outbox `last_Key` is set to `INVALID` by the constructor.
  The consumer reads and clears it with `keyboardGetKey`.
- `keyboardPoll` runs an endless loop with one scan cycle every 5 ms. A
  cycle walks the intersections in row-major order. An intersection is
  pressed when its row line and its column line both read low. Each cycle
  latches the first pressed, wired key that differs from the key latched in
  the previous cycle. If a cycle latches nothing, the previous key is reset
  to `INVALID`.

Files:

- `key_matrix.dfy` (module `KeyMatrix`): the key enumeration, the matrix
  dimensions, the keymap and `GetKey`.
- `scanner.dfy` (module `Scanner`):
  - the line sample `Lines`;
  - the specification functions `FirstEligible`, `Latch`, `Cycle` and `Run`;
  - the class `Keyboard`, whose field `lastKey` is the outbox. Its methods
    are the constructor, `TakeLastKey`, one scan cycle `ScanCycle`, and
    `Poll`, which runs the first n iterations of the polling loop.
- `scanner_properties.dfy` (module `ScannerProperties`): what a cycle
  latches, stated without the scan recursion, plus the behaviour over
  several cycles and the finding below.

How the source is modelled:

- The GPIO input registers become one sample of the lines per cycle.
  `rowLow[r]` means row line r reads low; `colLow[c]` means the same for
  column line c.
- `previous_Key` is a local of `keyboardPoll` that lives across loop
  iterations. `ScanCycle` takes its value at the start of the cycle and
  returns its value at the end. `Poll` keeps it as a local that starts out
  `Invalid`.
- The header's field names (`rowPorts`, `lastKey`, …) and the source
  file's names (`row_Ports`, `last_Key`, …) refer to the same state.
- The `Keyboard` class models the code as written. The corrected cycle from
  "## Findings" is modelled beside it and is not used by the class.

A pressed intersection is a conjunction of two line readings. So pressing two
keys on different rows and different columns also activates the two other
corners of their rectangle. Take (0,0) and (1,2) with previous key `Up`: the
sample also activates (0,2) `Up` and (1,0) `Left`. The cycle therefore latches
`Left`, not `Right`. `PreviousKeySkippedWithinCycle` proves both this case and
one where a later `Right` is latched after an earlier `Up` is skipped.

## Model

| member | source | states |
|---|---|---|
| KeyMatrix.GetKey | Keyboard.cpp:58-60 | For in-range indices, the key returned is the cell of the table at Keyboard.cpp:22-26: (2,1) is Invalid, row 0 and (1,1) are Up, (1,0) is Left, (1,2) is Right, and (2,0) and (2,2) are Down. Out-of-range indices are excluded by the precondition because the source has no bounds check. |
| Scanner.FirstEligible | Keyboard.cpp:79-97 | The key found among the first n intersections in row-major order is never Invalid and never the previous cycle's key. |
| Scanner.Cycle | Keyboard.cpp:76-105 | After one cycle, the previous key is Invalid or differs from the old one, so the same key is never latched in two consecutive cycles (two different keys can be). The outbox either keeps its value or holds the newly latched key, which is not Invalid. A reset previous key means the outbox was not written. |
| Scanner.Keyboard.constructor | Keyboard.cpp:29 | After construction the outbox holds Invalid. |
| Scanner.Keyboard.TakeLastKey | Keyboard.cpp:63-67 | Returns the value the outbox held on entry and leaves it Invalid. |
| Scanner.Keyboard.ScanCycle | Keyboard.cpp:76-105 | The nested row/column loop tests each intersection as "row line low and column line low" and skips Invalid cells. It leaves the outbox and the previous key as `Cycle` gives them. The ghost log of outbox writes is the latched key alone, or empty, so there is at most one write and never a write of Invalid. |
| Scanner.Keyboard.Poll | Keyboard.cpp:70-109 | After n loop iterations, starting from a previous key of Invalid, the outbox and the previous key are `Run` of the n samples. |
| ScannerProperties.FirstEligibleIsFirst | Keyboard.cpp:79-97 | Among the first n intersections, nothing is found exactly when none is eligible (pressed, wired, not the previous key). A found key belongs to an eligible intersection. The first eligible intersection's key is the one found. |
| ScannerProperties.LatchIsRowMajorFirst | Keyboard.cpp:79-100 | In row/column terms, a cycle latches nothing exactly when no intersection is eligible. Otherwise it latches the key of the row-major-first eligible intersection. |
| ScannerProperties.UnconsumedKeySurvives | Keyboard.cpp:93-105 | When nothing is eligible, the cycle leaves the outbox unchanged, so an unconsumed key survives. It also resets the previous key to Invalid, including when the only pressed keys equal the old previous key. |
| ScannerProperties.HeldAloneLatch | Keyboard.cpp:93-97 | With one key k pressed alone, a cycle latches k exactly when the previous key is not k. |
| ScannerProperties.HeldKeyAlternates | Keyboard.cpp:93-105 | When k is held over n > 0 cycles from a previous key other than k, the previous key afterwards is k for odd n and Invalid for even n. The outbox holds k. |
| ScannerProperties.HeldKeyAlternatesAfterLatch | Keyboard.cpp:93-105 | When k keeps being held after the cycle before latched it, over n > 0 cycles the previous key is Invalid for odd n and k for even n. The outbox is untouched by the first cycle and holds k from the second on. |
| ScannerProperties.HeldKeyLatchedEveryOtherCycle | Keyboard.cpp:93-105 | When k is held, cycle n (counting from 0) latches k when n is even and latches nothing when n is odd. So the latches fall on cycles 1, 3, 5, … counting from 1. |
| ScannerProperties.ReleaseRearms | Keyboard.cpp:102-105 | A cycle with no wired key pressed keeps the outbox and resets the previous key. The next press of any key k then latches k, whatever came before. |
| ScannerProperties.PreviousKeySkippedWithinCycle | Keyboard.cpp:83-97 | With previous Up and rows 0 and 1 and column 2 low, the earlier Up at (0,2) is skipped and Right is latched. With columns 0 and 2 low, Left is latched. With previous Invalid, the row-major-first Up is latched. |
| ScannerProperties.UnwiredIntersectionSkipped | Keyboard.cpp:85-89 | Pressing only the unwired intersection (2,1) latches nothing, whatever the previous key. |
| ScannerProperties.TakeTwice | Keyboard.cpp:63-67 | Two takes with no cycle in between return the latched key and then Invalid. |
| ScannerProperties.HeldKeyRelatchedAsWritten | Keyboard.cpp:93-105 | As written: the consumer has taken Right and Right is still held. The next cycle latches nothing and resets the previous key. The cycle after that latches Right again. |
| ScannerProperties.LatchWhenPressed | Keyboard.cpp:83-97 | With no wired key pressed nothing is latched. When a wired key is pressed and nothing is latched, the previous key is not Invalid (every pressed wired key equals it). |
| ScannerProperties.CycleIntended | Keyboard.cpp:102-105 | Corrected cycle: the previous key ends up Invalid exactly when no wired key is pressed, so it is reset on a release and only then. A reset previous key means the outbox was not written. |
| ScannerProperties.HeldKeyReportedOnce | Keyboard.cpp:102-105 | Under the corrected cycle, a key held alone is latched once. From then on the state is a fixed point for as long as the key is held. |

## Findings

| source | as written | input that shows it | evidently intended | confidence | as-written member | corrected member |
|---|---|---|---|---|---|---|
| Keyboard.cpp:102-105 | `previous_Key` is reset whenever no key was latched. That includes a cycle in which the held key was pressed but suppressed. So a held key is latched again on every other cycle (every 10 ms). | Hold (1,2) `Right` alone. Cycle 1 latches Right and the consumer takes it. Cycle 2 resets the previous key. Cycle 3 latches Right again. | The comments at Keyboard.cpp:72 and :91 say the previous key exists so that a long press or a stuck key works correctly. The intent is that a held key is reported once and `previous_Key` is reset only when no wired key is pressed. | high; not executed | ScannerProperties.HeldKeyRelatchedAsWritten | ScannerProperties.HeldKeyReportedOnce |

## Left out

- Hardware initialisation in `keyboardInit`, which is the RCC clock enable and the MODER/PUPDR/OSPEEDR writes. It has no observable logic.
- The port/pin tables and the `IDR` bit tests. They become the `Lines` sample.
- Mid-cycle line changes: the source reads the input registers again at every intersection, while the model samples each line once per cycle.
- The endless `while (1)`, `xTaskGetTickCount` and the 5 ms `vTaskDelayUntil`, which are RTOS scheduling. `Poll` runs a finite number of iterations, one per sample.
- The `volatile` qualifier on the outbox and concurrent consumer access. Calls are modelled as sequential.
- The empty destructor.
- The numeric values of the key enumeration (`UP = 0`, …): no logic depends on them.
- The width of the `uint8_t` row/column parameters: every index used is below 3.
