/**
  Substance identification by reduced-mobility (K0) tolerance matching.

  A library entry has three positive and three negative reference K0 slots;
  a slot whose reference value is not positive is ignored. For every checked
  slot the measured K0 list of that polarity is scanned from the start and
  the first value within the tolerance is recorded. Measured values are not
  consumed, so one value may fill several slots. An entry is identified when
  every checked slot of at least one polarity that has checked slots found a
  value. The library is a parameter: reading it from storage is not part of
  this model.
*/
module SubstanceIdentifier {
  import opened Optional

  /** Default matching window of the identifier (modules/substance_identifier.py). */
  const DefaultTolerance: real := 0.02

  /** The window the analysis script actually passes (main.py). */
  const ScriptTolerance: real := 0.2

  const SlotCount: nat := 3

  datatype Polarity = Positive | Negative

  /** Reference values of the columns `k0_<polarity>_1` to `k0_<polarity>_3`. */
  type Slots = s: seq<real> | |s| == SlotCount witness [0.0, 0.0, 0.0]

  datatype LibraryEntry = LibraryEntry(name: string, posRefs: Slots, negRefs: Slots)

  /** A library column `k0_<polarity>_<slot>`, with slot in 1..3. */
  datatype Column = Column(polarity: Polarity, slot: nat)

  /** The recorded triple (column, measured K0, reference K0). */
  datatype Match = Match(column: Column, measured: real, reference: real)

  datatype Identification = Identification(name: string, posMatches: seq<Match>, negMatches: seq<Match>)

  function Abs(x: real): real
  {
    if x < 0.0 then -x else x
  }

  predicate Within(k0: real, reference: real, tolerance: real)
  {
    Abs(k0 - reference) <= tolerance
  }

  /** Some measured value lies within the tolerance of `reference`. */
  predicate AnyWithin(measured: seq<real>, reference: real, tolerance: real)
  {
    exists n :: 0 <= n < |measured| && Within(measured[n], reference, tolerance)
  }

  /** The scan of one slot: the first measured position at or after `from`
      within the tolerance of `reference`. */
  function FirstWithin(measured: seq<real>, reference: real, tolerance: real, from: nat): (r: Option<nat>)
    requires from <= |measured|
    ensures r.Some? ==> from <= r.value < |measured| && Within(measured[r.value], reference, tolerance)
    ensures r.Some? ==> forall n :: from <= n < r.value ==> !Within(measured[n], reference, tolerance)
    ensures r.None? ==> forall n :: from <= n < |measured| ==> !Within(measured[n], reference, tolerance)
    decreases |measured| - from
  {
    if from == |measured| then None
    else if Within(measured[from], reference, tolerance) then Some(from)
    else FirstWithin(measured, reference, tolerance, from + 1)
  }

  /** The match recorded for slot `slot` (1..3): none when the reference is
      not positive or nothing is within tolerance. */
  function SlotMatch(polarity: Polarity, refs: Slots, slot: nat, measured: seq<real>, tolerance: real): seq<Match>
    requires 1 <= slot <= SlotCount
  {
    var reference := refs[slot - 1];
    if reference > 0.0 then
      match FirstWithin(measured, reference, tolerance, 0)
      case Some(n) => [Match(Column(polarity, slot), measured[n], reference)]
      case None => []
    else []
  }

  /** Number of checked (positive-reference) slots. */
  function Required(refs: Slots): nat
  {
    (if refs[0] > 0.0 then 1 else 0)
    + (if refs[1] > 0.0 then 1 else 0)
    + (if refs[2] > 0.0 then 1 else 0)
  }

  /** Every checked slot has some measured value within tolerance. */
  predicate FullyMatched(refs: Slots, measured: seq<real>, tolerance: real)
  {
    forall s :: 0 <= s < SlotCount && refs[s] > 0.0 ==> AnyWithin(measured, refs[s], tolerance)
  }

  /** A match list names slot `slot`. */
  predicate HasSlot(matches: seq<Match>, slot: nat)
  {
    exists k :: 0 <= k < |matches| && matches[k].column.slot == slot
  }

  /** The matches of one polarity, slots 1, 2 and 3 in order; at most one
      per checked slot. */
  function PolarityMatches(polarity: Polarity, refs: Slots, measured: seq<real>, tolerance: real): (r: seq<Match>)
    ensures |r| <= Required(refs)
  {
    SlotMatchFacts(polarity, refs, 1, measured, tolerance);
    SlotMatchFacts(polarity, refs, 2, measured, tolerance);
    SlotMatchFacts(polarity, refs, 3, measured, tolerance);
    SlotMatch(polarity, refs, 1, measured, tolerance)
    + SlotMatch(polarity, refs, 2, measured, tolerance)
    + SlotMatch(polarity, refs, 3, measured, tolerance)
  }

  /** `m` is a match of this polarity for a checked slot, carries that
      slot's reference value, and records the first measured value in list
      order that lies within tolerance of it. */
  predicate SoundMatch(polarity: Polarity, refs: Slots, measured: seq<real>, tolerance: real, m: Match)
  {
    && m.column.polarity == polarity
    && 1 <= m.column.slot <= SlotCount
    && m.reference == refs[m.column.slot - 1] > 0.0
    && FirstWithin(measured, m.reference, tolerance, 0).Some?
    && m.measured == measured[FirstWithin(measured, m.reference, tolerance, 0).value]
  }

  /** Every recorded match is sound, and matches are ordered by slot
      number. */
  lemma PolarityMatchesSound(polarity: Polarity, refs: Slots, measured: seq<real>, tolerance: real)
    ensures var r := PolarityMatches(polarity, refs, measured, tolerance);
      && (forall k :: 0 <= k < |r| ==> SoundMatch(polarity, refs, measured, tolerance, r[k]))
      && (forall k, l :: 0 <= k < l < |r| ==> r[k].column.slot < r[l].column.slot)
  {
    var m1 := SlotMatch(polarity, refs, 1, measured, tolerance);
    var m2 := SlotMatch(polarity, refs, 2, measured, tolerance);
    var m3 := SlotMatch(polarity, refs, 3, measured, tolerance);
    SlotMatchSound(polarity, refs, 1, measured, tolerance);
    SlotMatchSound(polarity, refs, 2, measured, tolerance);
    SlotMatchSound(polarity, refs, 3, measured, tolerance);
    SlotsAscending(m1 + m2 + m3, m1, m2, m3);
    var r := m1 + m2 + m3;
    forall k | 0 <= k < |r|
      ensures SoundMatch(polarity, refs, measured, tolerance, r[k])
    {
      assert r[k] in m1 || r[k] in m2 || r[k] in m3;
    }
  }

  lemma SlotMatchSound(polarity: Polarity, refs: Slots, slot: nat, measured: seq<real>, tolerance: real)
    requires 1 <= slot <= SlotCount
    ensures var m := SlotMatch(polarity, refs, slot, measured, tolerance);
      && |m| <= 1
      && forall x :: x in m ==> x.column.slot == slot && SoundMatch(polarity, refs, measured, tolerance, x)
  {
    SlotMatchFacts(polarity, refs, slot, measured, tolerance);
  }

  lemma SlotsAscending(r: seq<Match>, m1: seq<Match>, m2: seq<Match>, m3: seq<Match>)
    requires |m1| <= 1 && |m2| <= 1 && |m3| <= 1
    requires forall x :: x in m1 ==> x.column.slot == 1
    requires forall x :: x in m2 ==> x.column.slot == 2
    requires forall x :: x in m3 ==> x.column.slot == 3
    requires r == m1 + m2 + m3
    ensures forall k, l :: 0 <= k < l < |r| ==> r[k].column.slot < r[l].column.slot
  {
    forall k, l | 0 <= k < l < |r|
      ensures r[k].column.slot < r[l].column.slot
    {
      assert r[k] in m1 + m2 + m3 && r[l] in m1 + m2 + m3;
      if k < |m1| {
        assert r[k] == m1[k];
      }
      if l >= |m1| + |m2| {
        assert r[l] == m3[l - |m1| - |m2|];
      }
      if |m1| <= k < |m1| + |m2| {
        assert r[k] == m2[k - |m1|];
      }
      if |m1| <= l < |m1| + |m2| {
        assert r[l] == m2[l - |m1|];
      }
    }
  }

  /** A slot appears among the matches exactly when its reference is
      positive and some measured value lies within tolerance of it; hence
      the match count reaches the number of checked slots exactly when every
      checked slot can be matched. */
  lemma PolarityMatchesComplete(polarity: Polarity, refs: Slots, measured: seq<real>, tolerance: real)
    ensures var r := PolarityMatches(polarity, refs, measured, tolerance);
      && (forall s :: 1 <= s <= SlotCount ==>
            (HasSlot(r, s) <==> refs[s - 1] > 0.0 && AnyWithin(measured, refs[s - 1], tolerance)))
      && (|r| == Required(refs) <==> FullyMatched(refs, measured, tolerance))
  {
    var m1 := SlotMatch(polarity, refs, 1, measured, tolerance);
    var m2 := SlotMatch(polarity, refs, 2, measured, tolerance);
    var m3 := SlotMatch(polarity, refs, 3, measured, tolerance);
    SlotMatchFacts(polarity, refs, 1, measured, tolerance);
    SlotMatchFacts(polarity, refs, 2, measured, tolerance);
    SlotMatchFacts(polarity, refs, 3, measured, tolerance);
    SlotPresence(m1 + m2 + m3, m1, m2, m3);
  }

  lemma SlotMatchFacts(polarity: Polarity, refs: Slots, slot: nat, measured: seq<real>, tolerance: real)
    requires 1 <= slot <= SlotCount
    ensures var m := SlotMatch(polarity, refs, slot, measured, tolerance);
      && |m| == (if refs[slot - 1] > 0.0 && AnyWithin(measured, refs[slot - 1], tolerance) then 1 else 0)
      && forall k :: 0 <= k < |m| ==>
           && m[k].column == Column(polarity, slot)
           && m[k].reference == refs[slot - 1]
           && FirstWithin(measured, m[k].reference, tolerance, 0).Some?
           && m[k].measured == measured[FirstWithin(measured, m[k].reference, tolerance, 0).value]
  {
    var reference := refs[slot - 1];
    match FirstWithin(measured, reference, tolerance, 0)
    case Some(n) =>
    case None =>
      assert !AnyWithin(measured, reference, tolerance);
  }

  lemma SlotPresence(r: seq<Match>, m1: seq<Match>, m2: seq<Match>, m3: seq<Match>)
    requires |m1| <= 1 && |m2| <= 1 && |m3| <= 1
    requires forall k :: 0 <= k < |m1| ==> m1[k].column.slot == 1
    requires forall k :: 0 <= k < |m2| ==> m2[k].column.slot == 2
    requires forall k :: 0 <= k < |m3| ==> m3[k].column.slot == 3
    requires r == m1 + m2 + m3
    ensures HasSlot(r, 1) <==> |m1| == 1
    ensures HasSlot(r, 2) <==> |m2| == 1
    ensures HasSlot(r, 3) <==> |m3| == 1
  {
    if |m1| == 1 { assert r[0] == m1[0]; }
    if |m2| == 1 { assert r[|m1|] == m2[0]; }
    if |m3| == 1 { assert r[|m1| + |m2|] == m3[0]; }
  }

  /** Result record of one library entry. */
  function Evaluate(entry: LibraryEntry, posK0s: seq<real>, negK0s: seq<real>, tolerance: real): Identification
  {
    Identification(
      entry.name,
      PolarityMatches(Positive, entry.posRefs, posK0s, tolerance),
      PolarityMatches(Negative, entry.negRefs, negK0s, tolerance))
  }

  /** The identification rule: all checked slots of some polarity that has
      checked slots are matched. */
  predicate Identified(entry: LibraryEntry, posK0s: seq<real>, negK0s: seq<real>, tolerance: real)
  {
    var result := Evaluate(entry, posK0s, negK0s, tolerance);
    var requiredPos := Required(entry.posRefs);
    var requiredNeg := Required(entry.negRefs);
    || (|result.posMatches| == requiredPos && requiredPos > 0)
    || (|result.negMatches| == requiredNeg && requiredNeg > 0)
  }

  /** The loop over the library from entry `from` on. */
  function IdentifyFrom(posK0s: seq<real>, negK0s: seq<real>, library: seq<LibraryEntry>, tolerance: real, from: nat): (r: seq<Identification>)
    requires from <= |library|
    ensures |r| <= |library| - from
    decreases |library| - from
  {
    if from == |library| then []
    else
      var entry := library[from];
      (if Identified(entry, posK0s, negK0s, tolerance) then [Evaluate(entry, posK0s, negK0s, tolerance)] else [])
      + IdentifyFrom(posK0s, negK0s, library, tolerance, from + 1)
  }

  /** `identify_substances` with the library as a parameter. */
  function Identify(posK0s: seq<real>, negK0s: seq<real>, library: seq<LibraryEntry>, tolerance: real): seq<Identification>
  {
    IdentifyFrom(posK0s, negK0s, library, tolerance, 0)
  }

  /** An entry is identified exactly when, for a polarity with at least one
      checked slot, every checked slot has some measured value within
      tolerance. */
  lemma IdentifiedIffFullPolarity(entry: LibraryEntry, posK0s: seq<real>, negK0s: seq<real>, tolerance: real)
    ensures Identified(entry, posK0s, negK0s, tolerance)
        <==> (|| (Required(entry.posRefs) > 0 && FullyMatched(entry.posRefs, posK0s, tolerance))
              || (Required(entry.negRefs) > 0 && FullyMatched(entry.negRefs, negK0s, tolerance)))
  {
    PolarityMatchesComplete(Positive, entry.posRefs, posK0s, tolerance);
    PolarityMatchesComplete(Negative, entry.negRefs, negK0s, tolerance);
  }

  /** An entry without any checked slot is never identified. */
  lemma NoCheckedSlotsNeverIdentified(entry: LibraryEntry, posK0s: seq<real>, negK0s: seq<real>, tolerance: real)
    requires Required(entry.posRefs) == 0 && Required(entry.negRefs) == 0
    ensures !Identified(entry, posK0s, negK0s, tolerance)
  {
  }

  /** Slots whose reference is not positive play no part: two entries that
      agree on every positive reference give the same matches and the same
      verdict. */
  lemma NonPositiveReferencesIgnored(a: Slots, b: Slots, measured: seq<real>, tolerance: real, polarity: Polarity)
    requires forall s :: 0 <= s < SlotCount && (a[s] > 0.0 || b[s] > 0.0) ==> a[s] == b[s]
    ensures PolarityMatches(polarity, a, measured, tolerance) == PolarityMatches(polarity, b, measured, tolerance)
    ensures Required(a) == Required(b)
  {
    assert SlotMatch(polarity, a, 1, measured, tolerance) == SlotMatch(polarity, b, 1, measured, tolerance);
    assert SlotMatch(polarity, a, 2, measured, tolerance) == SlotMatch(polarity, b, 2, measured, tolerance);
    assert SlotMatch(polarity, a, 3, measured, tolerance) == SlotMatch(polarity, b, 3, measured, tolerance);
  }

  /** The identification rule's verdict on every library entry. */
  function Verdicts(posK0s: seq<real>, negK0s: seq<real>, library: seq<LibraryEntry>, tolerance: real): (v: seq<bool>)
    ensures |v| == |library|
  {
    seq(|library|, n requires 0 <= n < |library| => Identified(library[n], posK0s, negK0s, tolerance))
  }

  /** The positions, from `from` on, whose verdict is true, ascending: the
      reference definition of which entries are reported and in which
      order. */
  function Accepted(v: seq<bool>, from: nat): (idx: seq<nat>)
    requires from <= |v|
    ensures forall k :: 0 <= k < |idx| ==> from <= idx[k] < |v|
    ensures forall k, l :: 0 <= k < l < |idx| ==> idx[k] < idx[l]
    decreases |v| - from
  {
    if from == |v| then []
    else (if v[from] then [from] else []) + Accepted(v, from + 1)
  }

  /** A position is listed exactly when its verdict is true. */
  lemma {:induction false} AcceptedExact(v: seq<bool>, from: nat)
    requires from <= |v|
    ensures forall n :: from <= n < |v| ==> (n in Accepted(v, from) <==> v[n])
    decreases |v| - from
  {
    if from < |v| {
      AcceptedExact(v, from + 1);
      var rest := Accepted(v, from + 1);
      assert forall n :: n in rest ==> from < n;
      assert Accepted(v, from) == (if v[from] then [from] else []) + rest;
    }
  }

  /** The result at `from` lists, in order, the evaluation of every entry
      at a position `idx` names. */
  predicate FilteredAt(posK0s: seq<real>, negK0s: seq<real>, library: seq<LibraryEntry>, tolerance: real, from: nat)
    requires from <= |library|
  {
    var idx := Accepted(Verdicts(posK0s, negK0s, library, tolerance), from);
    var r := IdentifyFrom(posK0s, negK0s, library, tolerance, from);
    && |r| == |idx|
    && forall k :: 0 <= k < |r| ==> r[k] == Evaluate(library[idx[k]], posK0s, negK0s, tolerance)
  }

  /** The result is the library filtered by the identification rule, in
      library order, each entry carrying its name and both match lists. */
  lemma {:induction false} IdentifyIsOrderedFilter(posK0s: seq<real>, negK0s: seq<real>, library: seq<LibraryEntry>, tolerance: real, from: nat)
    requires from <= |library|
    ensures FilteredAt(posK0s, negK0s, library, tolerance, from)
    decreases |library| - from
  {
    if from < |library| {
      IdentifyIsOrderedFilter(posK0s, negK0s, library, tolerance, from + 1);
      if Verdicts(posK0s, negK0s, library, tolerance)[from] {
        FilteredAccepted(posK0s, negK0s, library, tolerance, from);
      } else {
        FilteredRejected(posK0s, negK0s, library, tolerance, from);
      }
    }
  }

  lemma FilteredAccepted(posK0s: seq<real>, negK0s: seq<real>, library: seq<LibraryEntry>, tolerance: real, from: nat)
    requires from < |library|
    requires Verdicts(posK0s, negK0s, library, tolerance)[from]
    requires FilteredAt(posK0s, negK0s, library, tolerance, from + 1)
    ensures FilteredAt(posK0s, negK0s, library, tolerance, from)
  {
    var v := Verdicts(posK0s, negK0s, library, tolerance);
    var idx := Accepted(v, from);
    var r := IdentifyFrom(posK0s, negK0s, library, tolerance, from);
    var restIdx := Accepted(v, from + 1);
    var rest := IdentifyFrom(posK0s, negK0s, library, tolerance, from + 1);
    assert idx == [from] + restIdx;
    assert r == [Evaluate(library[from], posK0s, negK0s, tolerance)] + rest;
    assert r[1..] == rest && idx[1..] == restIdx;
    ConsShift(r, rest, idx, restIdx);
  }

  lemma FilteredRejected(posK0s: seq<real>, negK0s: seq<real>, library: seq<LibraryEntry>, tolerance: real, from: nat)
    requires from < |library|
    requires !Verdicts(posK0s, negK0s, library, tolerance)[from]
    requires FilteredAt(posK0s, negK0s, library, tolerance, from + 1)
    ensures FilteredAt(posK0s, negK0s, library, tolerance, from)
  {
    var v := Verdicts(posK0s, negK0s, library, tolerance);
    assert Accepted(v, from) == Accepted(v, from + 1);
    assert IdentifyFrom(posK0s, negK0s, library, tolerance, from) == IdentifyFrom(posK0s, negK0s, library, tolerance, from + 1);
  }

  /** Together: the reported entries are exactly the identified ones. */
  lemma ReportedIffIdentified(posK0s: seq<real>, negK0s: seq<real>, library: seq<LibraryEntry>, tolerance: real)
    ensures var idx := Accepted(Verdicts(posK0s, negK0s, library, tolerance), 0);
      forall n :: 0 <= n < |library| ==> (n in idx <==> Identified(library[n], posK0s, negK0s, tolerance))
  {
    AcceptedExact(Verdicts(posK0s, negK0s, library, tolerance), 0);
  }

  lemma ConsShift<A, B>(r: seq<A>, rest: seq<A>, idx: seq<B>, restIdx: seq<B>)
    requires |r| == |rest| + 1 && r[1..] == rest
    requires |idx| == |r| && idx[1..] == restIdx
    ensures forall k :: 1 <= k < |r| ==> r[k] == rest[k - 1] && idx[k] == restIdx[k - 1]
  {
  }

  /** With no measured values at all, nothing is identified. */
  lemma {:induction false} NothingMeasuredNothingIdentified(library: seq<LibraryEntry>, tolerance: real, from: nat)
    requires from <= |library|
    ensures IdentifyFrom([], [], library, tolerance, from) == []
    decreases |library| - from
  {
    if from < |library| {
      var entry := library[from];
      var result := Evaluate(entry, [], [], tolerance);
      assert |result.posMatches| == 0 && |result.negMatches| == 0;
      NothingMeasuredNothingIdentified(library, tolerance, from + 1);
    }
  }

  /** Measured values are not consumed: two positive slots with reference
      1.00 are both filled by the single measured value 1.005, so the entry
      is identified. */
  lemma SharedMeasuredValueFillsTwoSlots()
    ensures var entry := LibraryEntry("X", [1.0, 1.0, 0.0], [0.0, 0.0, 0.0]);
      Identify([1.005], [], [entry], DefaultTolerance)
        == [Identification("X",
              [Match(Column(Positive, 1), 1.005, 1.0), Match(Column(Positive, 2), 1.005, 1.0)],
              [])]
  {
    var entry := LibraryEntry("X", [1.0, 1.0, 0.0], [0.0, 0.0, 0.0]);
    assert Within(1.005, 1.0, DefaultTolerance);
    assert FirstWithin([1.005], 1.0, DefaultTolerance, 0) == Some(0);
    var pos := PolarityMatches(Positive, entry.posRefs, [1.005], DefaultTolerance);
    assert SlotMatch(Positive, entry.posRefs, 1, [1.005], DefaultTolerance) == [Match(Column(Positive, 1), 1.005, 1.0)];
    assert SlotMatch(Positive, entry.posRefs, 2, [1.005], DefaultTolerance) == [Match(Column(Positive, 2), 1.005, 1.0)];
    assert SlotMatch(Positive, entry.posRefs, 3, [1.005], DefaultTolerance) == [];
    assert pos == [Match(Column(Positive, 1), 1.005, 1.0), Match(Column(Positive, 2), 1.005, 1.0)];
    assert PolarityMatches(Negative, entry.negRefs, [], DefaultTolerance) == [];
    assert Identified(entry, [1.005], [], DefaultTolerance);
    assert IdentifyFrom([1.005], [], [entry], DefaultTolerance, 1) == [];
  }


  /** The script's wider window changes the verdict: a measured 1.15 fills
      a 1.00 slot at 0.2 but not at the default 0.02. */
  lemma ScriptWindowIdentifiesWhatDefaultMisses()
    ensures var entry := LibraryEntry("Y", [1.0, 0.0, 0.0], [0.0, 0.0, 0.0]);
      && Identified(entry, [1.15], [], ScriptTolerance)
      && !Identified(entry, [1.15], [], DefaultTolerance)
  {
    var entry := LibraryEntry("Y", [1.0, 0.0, 0.0], [0.0, 0.0, 0.0]);
    assert FirstWithin([1.15], 1.0, ScriptTolerance, 0) == Some(0);
    assert SlotMatch(Positive, entry.posRefs, 1, [1.15], ScriptTolerance) == [Match(Column(Positive, 1), 1.15, 1.0)];
    assert SlotMatch(Positive, entry.posRefs, 2, [1.15], ScriptTolerance) == [];
    assert SlotMatch(Positive, entry.posRefs, 3, [1.15], ScriptTolerance) == [];
    assert FirstWithin([1.15], 1.0, DefaultTolerance, 0) == None;
    assert SlotMatch(Positive, entry.posRefs, 1, [1.15], DefaultTolerance) == [];
    assert SlotMatch(Positive, entry.posRefs, 2, [1.15], DefaultTolerance) == [];
    assert SlotMatch(Positive, entry.posRefs, 3, [1.15], DefaultTolerance) == [];
    assert Required(entry.negRefs) == 0;
  }

}
