/**
  The record reconciler of the analysis script: one forward pass with a cursor
  over the measurement rows, turning rows that carry only one polarity into
  rows that carry both.

  Every row is classified once from the emptiness of its two decoded traces.
  A complete row is emitted unchanged. A positive-only row is paired with the
  FIRST later row that is purely negative (negative trace present, positive
  trace empty); the emitted row is the positive-only row with its negative
  trace replaced, and the cursor jumps past the partner. Every other row is
  dropped and the cursor advances by one.

  The pass is described twice: `PlanFrom` names, by index, which rows feed
  each emitted row, and `ReconcileRows` is the cursor loop of the script; the
  two are proved to produce the same rows.
*/
module Reconciler {
  import opened Optional
  import opened Spectrum

  /** One measurement row, with the columns the script selects. */
  datatype Row = Row(
    measurementTime: string,
    posSpectrum: Blob,
    negSpectrum: Blob,
    temperature: real,
    pressure: real,
    posVoltage: real,
    negVoltage: real,
    tubeLength: real)

  /** The four mutually exclusive cases of the pass. */
  datatype Kind = Complete | PositiveOnly | NegativeOnly | Blank

  predicate HasPositive(parse: Parser, row: Row)
  {
    !IsEmpty(Decode(parse, row.posSpectrum))
  }

  predicate HasNegative(parse: Parser, row: Row)
  {
    !IsEmpty(Decode(parse, row.negSpectrum))
  }

  function Classify(parse: Parser, row: Row): Kind
  {
    var pos := HasPositive(parse, row);
    var neg := HasNegative(parse, row);
    if pos && neg then Complete
    else if pos then PositiveOnly
    else if neg then NegativeOnly
    else Blank
  }

  /** The guard of the later per-row analysis loop: skip a row when either
      decoded trace is all zeros. */
  predicate SkippedByAnalysis(parse: Parser, row: Row)
  {
    IsEmpty(Decode(parse, row.posSpectrum)) || IsEmpty(Decode(parse, row.negSpectrum))
  }

  /** The look-ahead: the first purely negative row at or after `from`. */
  function FindPureNegative(parse: Parser, rows: seq<Row>, from: nat): (r: Option<nat>)
    requires from <= |rows|
    ensures r.Some? ==> from <= r.value < |rows| && Classify(parse, rows[r.value]) == NegativeOnly
    ensures r.Some? ==> forall k :: from <= k < r.value ==> Classify(parse, rows[k]) != NegativeOnly
    ensures r.None? ==> forall k :: from <= k < |rows| ==> Classify(parse, rows[k]) != NegativeOnly
    decreases |rows| - from
  {
    if from == |rows| then None
    else if Classify(parse, rows[from]) == NegativeOnly then Some(from)
    else FindPureNegative(parse, rows, from + 1)
  }

  /** Which rows feed one emitted row: its positive trace and metadata come
      from `posRow`, its negative trace from `negRow`. A complete row feeds
      itself, so then `posRow == negRow`. */
  datatype Pairing = Pairing(posRow: nat, negRow: nat)

  /** A pairing the pass may make: a complete row on its own, or a
      positive-only row with the nearest purely negative row after it. */
  predicate ValidPairing(parse: Parser, rows: seq<Row>, p: Pairing)
  {
    && p.posRow <= p.negRow < |rows|
    && if p.posRow == p.negRow then
         Classify(parse, rows[p.posRow]) == Complete
       else
         && Classify(parse, rows[p.posRow]) == PositiveOnly
         && Classify(parse, rows[p.negRow]) == NegativeOnly
         && forall k :: p.posRow < k < p.negRow ==> Classify(parse, rows[k]) != NegativeOnly
  }

  /** Pairings with rows ascending: each one's rows all lie before the next
      one's, so no row is used twice and emitted rows keep input order. */
  predicate Ascending(plan: seq<Pairing>)
  {
    forall k, l :: 0 <= k < l < |plan| ==> plan[k].negRow < plan[l].posRow
  }

  /** The pairings made by the pass when its cursor stands at `i`. */
  function PlanFrom(parse: Parser, rows: seq<Row>, i: nat): (plan: seq<Pairing>)
    requires i <= |rows|
    ensures |plan| <= |rows| - i
    ensures forall k :: 0 <= k < |plan| ==> i <= plan[k].posRow <= plan[k].negRow < |rows|
    decreases |rows| - i
  {
    if i == |rows| then []
    else
      match Classify(parse, rows[i])
      case Complete => [Pairing(i, i)] + PlanFrom(parse, rows, i + 1)
      case PositiveOnly =>
        (match FindPureNegative(parse, rows, i + 1)
         case Some(j) => [Pairing(i, j)] + PlanFrom(parse, rows, j + 1)
         case None => PlanFrom(parse, rows, i + 1))
      case NegativeOnly => PlanFrom(parse, rows, i + 1)
      case Blank => PlanFrom(parse, rows, i + 1)
  }

  /** One step of the pass, unfolded by case. */
  lemma PlanFromComplete(parse: Parser, rows: seq<Row>, i: nat)
    requires i < |rows| && Classify(parse, rows[i]) == Complete
    ensures PlanFrom(parse, rows, i) == [Pairing(i, i)] + PlanFrom(parse, rows, i + 1)
  {
  }

  lemma PlanFromPaired(parse: Parser, rows: seq<Row>, i: nat, j: nat)
    requires i < |rows| && Classify(parse, rows[i]) == PositiveOnly
    requires FindPureNegative(parse, rows, i + 1) == Some(j)
    ensures PlanFrom(parse, rows, i) == [Pairing(i, j)] + PlanFrom(parse, rows, j + 1)
  {
  }

  lemma PlanFromDropped(parse: Parser, rows: seq<Row>, i: nat)
    requires i < |rows| && !Emittable(parse, rows, i)
    ensures PlanFrom(parse, rows, i) == PlanFrom(parse, rows, i + 1)
  {
  }

  /** Every pairing the pass makes from cursor `i` on is valid, and the
      pairings are in ascending, non-overlapping order. */
  lemma {:induction false} PlanFromValid(parse: Parser, rows: seq<Row>, i: nat)
    requires i <= |rows|
    ensures ValidPlan(parse, rows, PlanFrom(parse, rows, i))
    decreases |rows| - i
  {
    if i < |rows| {
      PlanFromValid(parse, rows, Advance(parse, rows, i));
      ValidPlanStep(parse, rows, i);
    }
  }

  /** Every pairing is valid and the pairings are in ascending row order. */
  predicate ValidPlan(parse: Parser, rows: seq<Row>, plan: seq<Pairing>)
  {
    && (forall p :: p in plan ==> ValidPairing(parse, rows, p))
    && Ascending(plan)
  }

  /** One step of the induction behind `PlanFromValid`. */
  lemma ValidPlanStep(parse: Parser, rows: seq<Row>, i: nat)
    requires i < |rows|
    requires ValidPlan(parse, rows, PlanFrom(parse, rows, Advance(parse, rows, i)))
    ensures ValidPlan(parse, rows, PlanFrom(parse, rows, i))
  {
    var partner := FindPureNegative(parse, rows, i + 1);
    if Classify(parse, rows[i]) == Complete {
      ValidPlanComplete(parse, rows, i);
    } else if Classify(parse, rows[i]) == PositiveOnly && partner.Some? {
      ValidPlanPaired(parse, rows, i, partner.value);
    } else {
      ValidPlanDropped(parse, rows, i);
    }
  }

  lemma ValidPlanComplete(parse: Parser, rows: seq<Row>, i: nat)
    requires i < |rows| && Classify(parse, rows[i]) == Complete
    requires ValidPlan(parse, rows, PlanFrom(parse, rows, i + 1))
    ensures ValidPlan(parse, rows, PlanFrom(parse, rows, i))
  {
    PlanFromComplete(parse, rows, i);
    ValidCons(parse, rows, Pairing(i, i), PlanFrom(parse, rows, i + 1), i + 1);
  }

  lemma ValidPlanPaired(parse: Parser, rows: seq<Row>, i: nat, j: nat)
    requires i < |rows| && Classify(parse, rows[i]) == PositiveOnly
    requires FindPureNegative(parse, rows, i + 1) == Some(j)
    requires ValidPlan(parse, rows, PlanFrom(parse, rows, j + 1))
    ensures ValidPlan(parse, rows, PlanFrom(parse, rows, i))
  {
    PlanFromPaired(parse, rows, i, j);
    ValidCons(parse, rows, Pairing(i, j), PlanFrom(parse, rows, j + 1), j + 1);
  }

  lemma ValidPlanDropped(parse: Parser, rows: seq<Row>, i: nat)
    requires i < |rows| && !Emittable(parse, rows, i)
    requires ValidPlan(parse, rows, PlanFrom(parse, rows, i + 1))
    ensures ValidPlan(parse, rows, PlanFrom(parse, rows, i))
  {
    PlanFromDropped(parse, rows, i);
  }

  lemma ValidCons(parse: Parser, rows: seq<Row>, p: Pairing, rest: seq<Pairing>, from: nat)
    requires ValidPairing(parse, rows, p) && p.negRow < from
    requires ValidPlan(parse, rows, rest)
    requires forall k :: 0 <= k < |rest| ==> from <= rest[k].posRow
    ensures ValidPlan(parse, rows, [p] + rest)
  {
    AscendingCons(p, rest, from);
  }

  /** A pairing that ends before every pairing of an ascending plan can
      lead it. */
  lemma AscendingCons(p: Pairing, rest: seq<Pairing>, from: nat)
    requires p.negRow < from && Ascending(rest)
    requires forall k :: 0 <= k < |rest| ==> from <= rest[k].posRow
    ensures Ascending([p] + rest)
  {
    var plan := [p] + rest;
    forall k, l | 0 <= k < l < |plan|
      ensures plan[k].negRow < plan[l].posRow
    {
      assert plan[l] == rest[l - 1];
      if k > 0 {
        assert plan[k] == rest[k - 1];
      }
    }
  }


  function Plan(parse: Parser, rows: seq<Row>): seq<Pairing>
  {
    PlanFrom(parse, rows, 0)
  }

  /** The emitted row of one pairing: a copy of the positive row whose
      negative trace is taken from the negative row. */
  function Merge(rows: seq<Row>, p: Pairing): Row
    requires p.posRow < |rows| && p.negRow < |rows|
  {
    rows[p.posRow].(negSpectrum := rows[p.negRow].negSpectrum)
  }

  predicate InRange(rows: seq<Row>, plan: seq<Pairing>)
  {
    forall k :: 0 <= k < |plan| ==> plan[k].posRow < |rows| && plan[k].negRow < |rows|
  }

  function MergeAll(rows: seq<Row>, plan: seq<Pairing>): seq<Row>
    requires InRange(rows, plan)
  {
    if |plan| == 0 then [] else [Merge(rows, plan[0])] + MergeAll(rows, plan[1..])
  }

  /** Row `b` carries the measurement time and drift-tube conditions of `a`. */
  predicate SameMetadata(a: Row, b: Row)
  {
    && a.measurementTime == b.measurementTime
    && a.temperature == b.temperature
    && a.pressure == b.pressure
    && a.posVoltage == b.posVoltage
    && a.negVoltage == b.negVoltage
    && a.tubeLength == b.tubeLength
  }

  /** The reconciled rows. */
  function Reconcile(parse: Parser, rows: seq<Row>): (merged: seq<Row>)
    ensures |merged| == |Plan(parse, rows)| <= |rows|
    ensures forall k :: 0 <= k < |merged| ==> Classify(parse, merged[k]) == Complete
    ensures forall k :: 0 <= k < |merged| ==>
      && SameMetadata(merged[k], rows[Plan(parse, rows)[k].posRow])
      && merged[k].posSpectrum == rows[Plan(parse, rows)[k].posRow].posSpectrum
      && merged[k].negSpectrum == rows[Plan(parse, rows)[k].negRow].negSpectrum
  {
    var plan := Plan(parse, rows);
    PlanFromValid(parse, rows, 0);
    MergeAllProperties(parse, rows, plan);
    MergeAll(rows, plan)
  }

  lemma {:induction false} MergeAllProperties(parse: Parser, rows: seq<Row>, plan: seq<Pairing>)
    requires forall k :: 0 <= k < |plan| ==> ValidPairing(parse, rows, plan[k])
    ensures InRange(rows, plan)
    ensures |MergeAll(rows, plan)| == |plan|
    ensures forall k :: 0 <= k < |plan| ==>
      && MergeAll(rows, plan)[k] == Merge(rows, plan[k])
      && Classify(parse, MergeAll(rows, plan)[k]) == Complete
  {
    if |plan| > 0 {
      MergeAllProperties(parse, rows, plan[1..]);
      forall k | 0 <= k < |plan|
        ensures Classify(parse, Merge(rows, plan[k])) == Complete
      {
        var m := Merge(rows, plan[k]);
        assert m.posSpectrum == rows[plan[k].posRow].posSpectrum;
        assert m.negSpectrum == rows[plan[k].negRow].negSpectrum;
      }
    }
  }

  /** No reconciled row is ever skipped by the later analysis loop. */
  lemma AnalysisSkipIsDead(parse: Parser, rows: seq<Row>)
    ensures forall k :: 0 <= k < |Reconcile(parse, rows)| ==> !SkippedByAnalysis(parse, Reconcile(parse, rows)[k])
  {
    var merged := Reconcile(parse, rows);
    forall k | 0 <= k < |merged|
      ensures !SkippedByAnalysis(parse, merged[k])
    {
      assert Classify(parse, merged[k]) == Complete;
    }
  }

  lemma MergeAllCons(rows: seq<Row>, p: Pairing, plan: seq<Pairing>)
    requires p.posRow < |rows| && p.negRow < |rows|
    requires InRange(rows, [p] + plan)
    ensures InRange(rows, plan)
    ensures MergeAll(rows, [p] + plan) == [Merge(rows, p)] + MergeAll(rows, plan)
  {
    assert ([p] + plan)[1..] == plan;
    assert forall k :: 0 <= k < |plan| ==> plan[k] == ([p] + plan)[k + 1];
  }

  /** The look-ahead loop of the positive-only case: the index of the first
      purely negative row after row `i`, or -1 when there is none. */
  method LookAhead(parse: Parser, rows: seq<Row>, i: nat) returns (nextNeg: int)
    requires i < |rows|
    ensures nextNeg == -1 <==> FindPureNegative(parse, rows, i + 1).None?
    ensures nextNeg != -1 ==> FindPureNegative(parse, rows, i + 1) == Some(nextNeg)
  {
    nextNeg := -1;
    var j := i + 1;
    while j < |rows|
      invariant i + 1 <= j <= |rows|
      invariant forall k :: i + 1 <= k < j ==> Classify(parse, rows[k]) != NegativeOnly
      decreases |rows| - j
    {
      if HasNegative(parse, rows[j]) && !HasPositive(parse, rows[j]) {
        nextNeg := j;
        break;
      }
      j := j + 1;
    }
  }

  /** The look-behind loop of the negative-only case: the index of the
      nearest earlier row with a positive trace, or -1 when there is none. */
  method LookBehind(parse: Parser, rows: seq<Row>, i: nat) returns (prevPos: int)
    requires i < |rows|
    ensures -1 <= prevPos < i
    ensures prevPos != -1 ==> HasPositive(parse, rows[prevPos])
    ensures forall k :: prevPos < k < i ==> !HasPositive(parse, rows[k])
  {
    prevPos := -1;
    var j := i - 1;
    while j >= 0
      invariant -1 <= j < i
      invariant forall k :: j < k < i ==> !HasPositive(parse, rows[k])
      decreases j
    {
      if HasPositive(parse, rows[j]) {
        prevPos := j;
        break;
      }
      j := j - 1;
    }
  }

  lemma EmitComplete(parse: Parser, rows: seq<Row>, i: nat)
    requires i < |rows| && Classify(parse, rows[i]) == Complete
    ensures MergeAll(rows, PlanFrom(parse, rows, i))
         == [rows[i]] + MergeAll(rows, PlanFrom(parse, rows, i + 1))
  {
    PlanFromComplete(parse, rows, i);
    MergeAllCons(rows, Pairing(i, i), PlanFrom(parse, rows, i + 1));
    assert Merge(rows, Pairing(i, i)) == rows[i];
  }

  lemma EmitPaired(parse: Parser, rows: seq<Row>, i: nat, j: nat)
    requires i < |rows| && Classify(parse, rows[i]) == PositiveOnly
    requires FindPureNegative(parse, rows, i + 1) == Some(j)
    ensures MergeAll(rows, PlanFrom(parse, rows, i))
         == [rows[i].(negSpectrum := rows[j].negSpectrum)] + MergeAll(rows, PlanFrom(parse, rows, j + 1))
  {
    PlanFromPaired(parse, rows, i, j);
    MergeAllCons(rows, Pairing(i, j), PlanFrom(parse, rows, j + 1));
  }

  lemma EmitDropped(parse: Parser, rows: seq<Row>, i: nat)
    requires i < |rows| && !Emittable(parse, rows, i)
    ensures MergeAll(rows, PlanFrom(parse, rows, i)) == MergeAll(rows, PlanFrom(parse, rows, i + 1))
  {
    PlanFromDropped(parse, rows, i);
  }

  /** One iteration of the cursor loop of the script: the rows it appends and
      where it leaves the cursor. */
  method Step(parse: Parser, rows: seq<Row>, i: nat) returns (emitted: seq<Row>, next: nat)
    requires i < |rows|
    ensures i < next <= |rows|
    ensures MergeAll(rows, PlanFrom(parse, rows, i))
         == emitted + MergeAll(rows, PlanFrom(parse, rows, next))
  {
    var current := rows[i];
    var hasPos := HasPositive(parse, current);
    var hasNeg := HasNegative(parse, current);
    if hasPos && hasNeg {
      EmitComplete(parse, rows, i);
      emitted, next := [current], i + 1;
    } else if hasPos && !hasNeg {
      var nextNeg := LookAhead(parse, rows, i);
      if nextNeg != -1 {
        EmitPaired(parse, rows, i, nextNeg);
        emitted, next := [current.(negSpectrum := rows[nextNeg].negSpectrum)], nextNeg + 1;
      } else {
        EmitDropped(parse, rows, i);
        emitted, next := [], i + 1;
      }
    } else if !hasPos && hasNeg {
      var prevPos := LookBehind(parse, rows, i);
      EmitDropped(parse, rows, i);
      if prevPos != -1 {
        emitted, next := [], i + 1;
      } else {
        emitted, next := [], i + 1;
      }
    } else {
      EmitDropped(parse, rows, i);
      emitted, next := [], i + 1;
    }
    if emitted == [] {
      assert emitted + MergeAll(rows, PlanFrom(parse, rows, next)) == MergeAll(rows, PlanFrom(parse, rows, next));
    }
  }

  /** The cursor loop of the script (main.py, lines 22 to 83): the cursor
      strictly increases, so the loop ends, and the rows it collects are the
      reconciled rows. */
  method ReconcileRows(parse: Parser, rows: seq<Row>) returns (merged: seq<Row>)
    ensures merged == Reconcile(parse, rows)
    ensures forall k :: 0 <= k < |merged| ==> !SkippedByAnalysis(parse, merged[k])
  {
    merged := [];
    var i := 0;
    while i < |rows|
      invariant i <= |rows|
      invariant merged + MergeAll(rows, PlanFrom(parse, rows, i)) == Reconcile(parse, rows)
      decreases |rows| - i
    {
      var emitted, next := Step(parse, rows, i);
      assert (merged + emitted) + MergeAll(rows, PlanFrom(parse, rows, next))
          == merged + (emitted + MergeAll(rows, PlanFrom(parse, rows, next)));
      merged := merged + emitted;
      i := next;
    }
    assert PlanFrom(parse, rows, i) == [];
    assert merged + [] == merged;
    AnalysisSkipIsDead(parse, rows);
  }

  /** Row `k` lies strictly inside the span of some pairing, between the
      positive row and the negative row it was paired with. */
  predicate Covered(plan: seq<Pairing>, k: nat)
  {
    exists m :: 0 <= m < |plan| && plan[m].posRow < k < plan[m].negRow
  }

  /** Row `k` supplies the positive trace of some emitted row. */
  predicate EmitsFrom(plan: seq<Pairing>, k: nat)
  {
    exists m :: 0 <= m < |plan| && plan[m].posRow == k
  }

  /** A row that could lead an emitted row if the cursor stopped on it. */
  predicate Emittable(parse: Parser, rows: seq<Row>, k: nat)
    requires k < |rows|
  {
    || Classify(parse, rows[k]) == Complete
    || (Classify(parse, rows[k]) == PositiveOnly && FindPureNegative(parse, rows, k + 1).Some?)
  }

  /** Row `k`'s status under a plan with a leading pairing `p`: emitted when
      `p` or a later pairing starts at it, jumped over when `p` or a later
      pairing spans it. */
  lemma ConsRowStatus(p: Pairing, rest: seq<Pairing>, k: nat)
    ensures EmitsFrom([p] + rest, k) <==> p.posRow == k || EmitsFrom(rest, k)
    ensures Covered([p] + rest, k) <==> (p.posRow < k < p.negRow) || Covered(rest, k)
  {
    var plan := [p] + rest;
    if EmitsFrom(plan, k) && p.posRow != k {
      var m :| 0 <= m < |plan| && plan[m].posRow == k;
      assert rest[m - 1].posRow == k;
    }
    if EmitsFrom(rest, k) {
      var m :| 0 <= m < |rest| && rest[m].posRow == k;
      assert plan[m + 1].posRow == k;
    }
    if p.posRow == k {
      assert plan[0].posRow == k;
    }
    if Covered(plan, k) && !(p.posRow < k < p.negRow) {
      var m :| 0 <= m < |plan| && plan[m].posRow < k < plan[m].negRow;
      assert rest[m - 1].posRow < k < rest[m - 1].negRow;
    }
    if Covered(rest, k) {
      var m :| 0 <= m < |rest| && rest[m].posRow < k < rest[m].negRow;
      assert plan[m + 1].posRow < k < plan[m + 1].negRow;
    }
    if p.posRow < k < p.negRow {
      assert plan[0].posRow < k < plan[0].negRow;
    }
  }

  /** The emission rule for row `k` and a plan whose head neither starts at
      nor spans `k` follows from the rule for the rest of the plan. */
  lemma RulePassesHead(p: Pairing, rest: seq<Pairing>, k: nat, emittable: bool)
    requires p.posRow != k && !(p.posRow < k < p.negRow)
    requires EmitsFrom(rest, k) <==> (emittable && !Covered(rest, k))
    ensures EmitsFrom([p] + rest, k) <==> (emittable && !Covered([p] + rest, k))
  {
    ConsRowStatus(p, rest, k);
  }

  /** The emission rule for a row `k` from the start to the end of the head
      pairing, when the rest of the plan does not touch `k`. */
  lemma RuleAtHead(p: Pairing, rest: seq<Pairing>, k: nat, emittable: bool)
    requires p.posRow <= k <= p.negRow
    requires !EmitsFrom(rest, k) && !Covered(rest, k)
    requires k == p.posRow ==> emittable
    requires k == p.negRow && p.posRow < p.negRow ==> !emittable
    ensures EmitsFrom([p] + rest, k) <==> (emittable && !Covered([p] + rest, k))
  {
    ConsRowStatus(p, rest, k);
  }

  /** No pairing made from cursor `i` on starts before `i`, so a row `k`
      before every such start is neither emitted nor jumped over. */
  lemma BeforePlanUntouched(parse: Parser, rows: seq<Row>, i: nat, k: nat)
    requires k < i <= |rows|
    ensures !EmitsFrom(PlanFrom(parse, rows, i), k)
    ensures !Covered(PlanFrom(parse, rows, i), k)
  {
  }

  /** The statement of `EmittedIffEmittableAndNotSkipped` for one cursor and row. */
  predicate EmissionRule(parse: Parser, rows: seq<Row>, i: nat, k: nat)
    requires i <= k < |rows|
  {
    var plan := PlanFrom(parse, rows, i);
    EmitsFrom(plan, k) <==> (Emittable(parse, rows, k) && !Covered(plan, k))
  }

  lemma EmissionRuleComplete(parse: Parser, rows: seq<Row>, i: nat, k: nat)
    requires i <= k < |rows| && Classify(parse, rows[i]) == Complete
    requires Advance(parse, rows, i) <= k ==> EmissionRule(parse, rows, Advance(parse, rows, i), k)
    ensures EmissionRule(parse, rows, i, k)
  {
    assert Advance(parse, rows, i) == i + 1;
    PlanFromComplete(parse, rows, i);
    var rest := PlanFrom(parse, rows, i + 1);
    if k == i {
      BeforePlanUntouched(parse, rows, i + 1, k);
      RuleAtHead(Pairing(i, i), rest, k, Emittable(parse, rows, k));
    } else {
      RulePassesHead(Pairing(i, i), rest, k, Emittable(parse, rows, k));
    }
  }

  lemma EmissionRulePairedStep(parse: Parser, rows: seq<Row>, i: nat, j: nat, k: nat)
    requires i <= k < |rows| && Classify(parse, rows[i]) == PositiveOnly
    requires FindPureNegative(parse, rows, i + 1) == Some(j)
    requires Advance(parse, rows, i) <= k ==> EmissionRule(parse, rows, Advance(parse, rows, i), k)
    ensures EmissionRule(parse, rows, i, k)
  {
    if k <= j {
      PlanFromPaired(parse, rows, i, j);
      EmissionRuleWithinPair(parse, rows, i, j, k);
    } else {
      EmissionRulePaired(parse, rows, i, j, k);
    }
  }

  /** Past the partner of a paired positive-only row, the head pairing
      leaves the rule as it stands after the jump. */
  lemma EmissionRulePaired(parse: Parser, rows: seq<Row>, i: nat, j: nat, k: nat)
    requires i < j < k < |rows| && Classify(parse, rows[i]) == PositiveOnly
    requires FindPureNegative(parse, rows, i + 1) == Some(j)
    requires EmissionRule(parse, rows, j + 1, k)
    ensures EmissionRule(parse, rows, i, k)
  {
    PlanFromPaired(parse, rows, i, j);
    RulePassesHead(Pairing(i, j), PlanFrom(parse, rows, j + 1), k, Emittable(parse, rows, k));
  }

  /** From a positive-only row to its partner, only the positive-only row
      leads an emitted row. */
  lemma EmissionRuleWithinPair(parse: Parser, rows: seq<Row>, i: nat, j: nat, k: nat)
    requires i <= k <= j < |rows| && Classify(parse, rows[i]) == PositiveOnly
    requires FindPureNegative(parse, rows, i + 1) == Some(j)
    requires PlanFrom(parse, rows, i) == [Pairing(i, j)] + PlanFrom(parse, rows, j + 1)
    ensures EmissionRule(parse, rows, i, k)
  {
    BeforePlanUntouched(parse, rows, j + 1, k);
    var emittable := Emittable(parse, rows, k);
    assert k == i ==> emittable;
    assert k == j ==> !emittable;
    RuleAtHead(Pairing(i, j), PlanFrom(parse, rows, j + 1), k, emittable);
  }

  lemma EmissionRuleDropped(parse: Parser, rows: seq<Row>, i: nat, k: nat)
    requires i <= k < |rows| && !Emittable(parse, rows, i)
    requires Advance(parse, rows, i) <= k ==> EmissionRule(parse, rows, Advance(parse, rows, i), k)
    ensures EmissionRule(parse, rows, i, k)
  {
    assert Advance(parse, rows, i) == i + 1;
    PlanFromDropped(parse, rows, i);
    if k == i {
      BeforePlanUntouched(parse, rows, i + 1, k);
    }
  }

  /** Where the cursor goes from row `i`: past the partner when a
      positive-only row is paired, to the next row otherwise. */
  function Advance(parse: Parser, rows: seq<Row>, i: nat): (next: nat)
    requires i < |rows|
    ensures i < next <= |rows|
  {
    if Classify(parse, rows[i]) == PositiveOnly && FindPureNegative(parse, rows, i + 1).Some? then
      FindPureNegative(parse, rows, i + 1).value + 1
    else
      i + 1
  }

  /** One step of the induction: the rule at the next cursor gives the
      rule at `i`. */
  lemma EmissionRuleStep(parse: Parser, rows: seq<Row>, i: nat, k: nat)
    requires i <= k < |rows|
    requires Advance(parse, rows, i) <= k ==> EmissionRule(parse, rows, Advance(parse, rows, i), k)
    ensures EmissionRule(parse, rows, i, k)
  {
    var partner := FindPureNegative(parse, rows, i + 1);
    if Classify(parse, rows[i]) == Complete {
      EmissionRuleComplete(parse, rows, i, k);
    } else if Classify(parse, rows[i]) == PositiveOnly && partner.Some? {
      EmissionRulePairedStep(parse, rows, i, partner.value, k);
    } else {
      EmissionRuleDropped(parse, rows, i, k);
    }
  }

  /** The emission rule holds for every cursor and every row at or after it. */
  lemma {:induction false} EmissionRuleHolds(parse: Parser, rows: seq<Row>, i: nat, k: nat)
    requires i <= k < |rows|
    ensures EmissionRule(parse, rows, i, k)
    decreases |rows| - i
  {
    var next := Advance(parse, rows, i);
    if next <= k {
      EmissionRuleHolds(parse, rows, next, k);
    }
    EmissionRuleStep(parse, rows, i, k);
  }

  /** Exactly the emittable rows that no earlier pairing jumped over are
      emitted. In particular, rows strictly between a positive-only row and
      its partner are never emitted, whatever their kind; negative-only and
      blank rows never lead an emitted row; and a positive-only row with no
      purely negative row after it is dropped. */
  lemma EmittedIffEmittableAndNotSkipped(parse: Parser, rows: seq<Row>, k: nat)
    requires k < |rows|
    ensures EmitsFrom(Plan(parse, rows), k)
        <==> Emittable(parse, rows, k) && !Covered(Plan(parse, rows), k)
  {
    EmissionRuleHolds(parse, rows, 0, k);
  }

  /** Two positive-only rows followed by one negative-only row: the FIRST
      positive-only row takes the negative trace and the second is dropped. */
  lemma PositiveOnlyTwiceThenNegativeOnly(parse: Parser, rows: seq<Row>)
    requires |rows| == 3
    requires Classify(parse, rows[0]) == PositiveOnly
    requires Classify(parse, rows[1]) == PositiveOnly
    requires Classify(parse, rows[2]) == NegativeOnly
    ensures Plan(parse, rows) == [Pairing(0, 2)]
    ensures Reconcile(parse, rows) == [rows[0].(negSpectrum := rows[2].negSpectrum)]
  {
    assert FindPureNegative(parse, rows, 1) == Some(2);
    assert PlanFrom(parse, rows, 3) == [];
    MergeAllProperties(parse, rows, Plan(parse, rows));
  }

  /** A positive-only row, a negative-only row, then a positive-only row with
      nothing after it: one row is emitted, pairing the first two; the last
      row is dropped. */
  lemma PositiveNegativePositive(parse: Parser, rows: seq<Row>)
    requires |rows| == 3
    requires Classify(parse, rows[0]) == PositiveOnly
    requires Classify(parse, rows[1]) == NegativeOnly
    requires Classify(parse, rows[2]) == PositiveOnly
    ensures Plan(parse, rows) == [Pairing(0, 1)]
    ensures Reconcile(parse, rows) == [rows[0].(negSpectrum := rows[1].negSpectrum)]
  {
    assert FindPureNegative(parse, rows, 1) == Some(1);
    assert FindPureNegative(parse, rows, 3) == None;
    assert PlanFrom(parse, rows, 3) == [];
    assert PlanFrom(parse, rows, 2) == [];
    MergeAllProperties(parse, rows, Plan(parse, rows));
  }

}
