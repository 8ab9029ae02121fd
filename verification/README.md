# IMS analysis core in Dafny

This project models the computational core of an ion-mobility-spectrometry
(IMS) analysis script. The script reads measurement rows, reconciles them
into rows carrying both a positive and a negative spectrum, ranks the peaks
of each spectrum, converts peak positions to reduced-mobility (K0) values and
matches those against a substance library. The model covers four parts:

- `Spectrum` (`spectrum.dfy`) covers how a stored spectrum is prepared: the
  `b[2:-1]` slice in front of the text parser, the parser itself as a
  parameter, and the "all samples are zero" emptiness test.
- `Reconciler` (`reconciler.dfy`) covers the cursor loop of `main.py` that
  merges rows:
  - A complete row (both spectra non-empty) is kept unchanged.
  - A positive-only row is paired with the first later purely negative row,
    and the cursor jumps past that row.
  - Every other row is dropped.

  The loop is stated twice and the two are proved equal:
  - `PlanFrom`, a recursive reference definition that says which rows feed
    each emitted row;
  - `ReconcileRows`, a method written as the script's loop, with its
    look-ahead and look-behind loops.
- `SubstanceIdentifier` (`substance_identifier.dfy`) covers
  `identify_substances`:
  - Each slot is matched against the first measured value within tolerance.
  - The required slots are counted.
  - The identification rule decides which entries are reported.
  - The result is the library filtered by that rule, in library order.
- `Ims` (`ims.dfy`) covers two steps:
  - The ranking step of `process_spectrum`: a stable sort by height,
    highest first, cut to ten peaks.
  - `calculate_k0_value`: one K0 per peak, computed over the reals.

`Optional` (`optional.dfy`) holds the `Option` type used for "not found".

## Behaviour worth knowing

- **Two positive-only rows, then one negative-only row.** The code pairs the
  FIRST positive-only row with the negative row (main.py:42-56). The second
  one lies inside the jump and is dropped. See `Reconciler.PositiveOnlyTwiceThenNegativeOnly`.
- **One measured value near two equal references.** Measured values are not
  consumed: each slot rescans the whole list
  (modules/substance_identifier.py:24-27). With references 1.00 and 1.00 and the single measured value
  1.005, both slots match and the entry is identified. See
  `SubstanceIdentifier.SharedMeasuredValueFillsTwoSlots`.
- **Division by zero.** The code has no error path for a zero divisor in
  the K0 formula (modules/ims.py:26-37), so the model states those cases as
  preconditions.
- **Matching window.** The script calls the identifier with a window of 0.2
  (main.py:9, 128), ten times the identifier's default of 0.02. A measured
  1.15 therefore fills a 1.00 slot. See
  `SubstanceIdentifier.ScriptWindowIdentifiesWhatDefaultMisses`.

## Model

| member | source | states |
|---|---|---|
| `Spectrum.Payload` | main.py:29-30 | Python's `b[2:-1]`: three bytes shorter, byte `k` of the result is byte `k+2` of the input, and empty for inputs of three bytes or fewer |
| `Reconciler.FindPureNegative` | main.py:41-49 | the result is the first row at or after `from` whose negative trace is non-empty and positive trace empty; `None` only when no such row exists |
| `Reconciler.LookAhead` | main.py:40-49 | the look-ahead loop returns -1 exactly when no purely negative row follows row `i`, otherwise the index of the first one |
| `Reconciler.LookBehind` | main.py:64-72 | the look-behind loop returns the nearest earlier row with a positive trace, or -1 when none exists |
| `Reconciler.Advance` | main.py:35-83 | every case moves the cursor strictly forward and never past the end, so the loop terminates |
| `Reconciler.PlanFrom` | main.py:22-83 | at most one pairing per remaining row, and every pairing lies between the cursor and the last row |
| `Reconciler.PlanFromValid` | main.py:22-83 | each pairing is either a complete row on its own or a positive-only row with the nearest purely negative row after it; pairings never overlap and are in ascending row order |
| `Reconciler.Reconcile` | main.py:32-59 | no more output rows than input rows; every output row has both traces non-empty; each output row carries the metadata and positive trace of its positive row and the negative trace of its partner |
| `Reconciler.EmitComplete` | main.py:32-36 | a complete row is emitted unchanged and the cursor advances by one |
| `Reconciler.EmitPaired` | main.py:38-56 | a paired positive-only row is emitted with only its negative trace replaced, and the cursor continues after the partner |
| `Reconciler.EmitDropped` | main.py:57-83 | a row that is neither complete nor a pairable positive-only row emits nothing, and the cursor advances by one |
| `Reconciler.Step` | main.py:24-83 | one loop iteration: the cursor strictly increases, and the rows appended plus those emitted from the new cursor equal those emitted from the old cursor |
| `Reconciler.ReconcileRows` | main.py:22-83 | the script's loop terminates and collects exactly the reconciled rows, none of which the later skip check would skip |
| `Reconciler.AnalysisSkipIsDead` | main.py:98-104 | the "skip if either spectrum is empty" guard never fires on reconciled rows |
| `Reconciler.EmittedIffEmittableAndNotSkipped` | main.py:32-83 | row `k` leads an emitted row if and only if it is complete or a positive-only row with a later purely negative row, and no earlier pairing jumped over it |
| `Reconciler.PositiveOnlyTwiceThenNegativeOnly` | main.py:39-60 | for positive-only, positive-only, negative-only rows, the first row pairs with the third and the second is dropped |
| `Reconciler.PositiveNegativePositive` | main.py:39-83 | for positive-only, negative-only, positive-only rows, the first two are paired and the last is dropped |
| `SubstanceIdentifier.FirstWithin` | modules/substance_identifier.py:24-27 | the first measured value, in list order, within tolerance of the reference; none exactly when no value is within tolerance |
| `SubstanceIdentifier.PolarityMatches` | modules/substance_identifier.py:19-38 | at most one match per checked slot, so the match count never exceeds the required count |
| `SubstanceIdentifier.PolarityMatchesSound` | modules/substance_identifier.py:19-38 | each match has this polarity, a slot with a positive reference, that reference, and the first measured value within tolerance of it; matches are ordered by slot |
| `SubstanceIdentifier.PolarityMatchesComplete` | modules/substance_identifier.py:19-42 | a slot is matched if and only if its reference is positive and some measured value is within tolerance; the count equals the required count if and only if every checked slot can be matched |
| `SubstanceIdentifier.IdentifiedIffFullPolarity` | modules/substance_identifier.py:40-46 | an entry is identified if and only if some polarity with at least one checked slot has every checked slot matchable |
| `SubstanceIdentifier.NoCheckedSlotsNeverIdentified` | modules/substance_identifier.py:40-46 | an entry with no positive reference value in either polarity is never identified |
| `SubstanceIdentifier.NonPositiveReferencesIgnored` | modules/substance_identifier.py:20-42 | references that are zero or negative influence neither the matches nor the required count |
| `SubstanceIdentifier.IdentifyFrom` | modules/substance_identifier.py:15-53 | no more identifications than library entries |
| `SubstanceIdentifier.IdentifyIsOrderedFilter` | modules/substance_identifier.py:15-53 | the result lists, in library order, the name and both match lists of exactly the entries at the accepted positions |
| `SubstanceIdentifier.ReportedIffIdentified` | modules/substance_identifier.py:44-53 | a library position is reported if and only if the identification rule accepts its entry |
| `SubstanceIdentifier.NothingMeasuredNothingIdentified` | modules/substance_identifier.py:24-46 | with both measured lists empty, nothing is identified |
| `SubstanceIdentifier.SharedMeasuredValueFillsTwoSlots` | modules/substance_identifier.py:20-27 | one measured value 1.005 fills two slots with reference 1.00, and the entry is identified |
| `SubstanceIdentifier.ScriptWindowIdentifiesWhatDefaultMisses` | main.py:9-128 | with the script's window 0.2, a measured 1.15 fills a 1.00 slot and the entry is identified; with the default 0.02 it is not |
| `Ims.SortByHeight` | modules/ims.py:12 | the sorted list is a permutation of the candidates with heights non-increasing |
| `Ims.SortIsStable` | modules/ims.py:12 | for every height, the peaks of that height keep their input order |
| `Ims.TopPeaks` | modules/ims.py:12-14 | the result has length min(10, n) and non-increasing heights; it is a sub-multiset of the candidates, and no kept peak is lower than a dropped one |
| `Ims.TopPeaksStable` | modules/ims.py:12 | the kept peaks of each height are the first peaks of that height in candidate order |
| `Ims.RankedPeaksOrder` | modules/ims.py:12 | for candidates in ascending index order, kept peaks are ordered by height descending, then by index ascending |
| `Ims.CalculateK0Values` | modules/ims.py:32-40 | one K0 per peak, in peak order, each a function of the peak's index alone (so empty input gives empty output) |
| `Ims.K0TimesDriftTime` | modules/ims.py:26-37 | K0 times drift time times voltage is the same corrected squared tube length for every peak |
| `Ims.K0DecreasesWithIndex` | modules/ims.py:26-37 | under physical conditions, a peak at a larger index has a strictly smaller K0 |

## Left out

- Smoothing and peak detection in `process_spectrum` (modules/ims.py:6-10)
  are SciPy numerics. The ranking works on an abstract candidate list.
- The text parser `np.fromstring` is a parameter `parse` and is not
  modelled. Only the byte slice in front of it is modelled.
- The database and CSV access of `modules/sqlite_helper.py` is not modelled:
  - the measurement rows are a parameter of the reconciler;
  - the substance library is a parameter of the identifier;
  - `get_substance_library` is not part of this model.
- Plotting (`modules/visualization.py`), printing, and the per-record display
  glue of main.py:85-166 are not modelled. That glue includes the fixed
  resolution 32.392 and the wiring between the steps.
- Floating point is modelled as real arithmetic. Rounding, NaN and infinity
  are not modelled.
- The library columns `k0_pos_1` … `k0_neg_3` are modelled as
  `Column(polarity, slot)` rather than as strings.
- Ims.CalculateK0Values: requires non-zero voltage, resolution and absolute
  temperature. The source does not guard these divisions, so the failure
  (an exception or an infinite value, depending on the number type) is not
  modelled.
- Ims.K0DecreasesWithIndex: holds only under physical conditions (positive
  voltage, resolution, pressure and absolute temperature, non-zero tube
  length). Outside those conditions the source promises no order.
