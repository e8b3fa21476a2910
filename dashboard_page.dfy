/**
 * The dashboard's study-plan checklist: ticking an item, the completed count,
 * the progress percentage and status label shown for it, and resetting the plan.
 */
module DashboardPage {

  datatype PlanStatus = Completed | Pending

  /** A row of `study_plans`. */
  datatype StudyPlanItem = StudyPlanItem(
    id: string,
    userId: string,
    title: string,
    duration: string,
    status: PlanStatus,
    dayOfWeek: int,
    isCompleted: bool)

  /** The item with its completion set to `done` and the status that goes with it. */
  function WithCompletion(item: StudyPlanItem, done: bool): StudyPlanItem {
    item.(isCompleted := done, status := if done then Completed else Pending)
  }

  /**
   * handleToggleTask once the server has stored `!currentStatus`: the items
   * with that id get the new value and the matching status, all others stay.
   * When the request fails, nothing changes.
   */
  function ToggleTask(items: seq<StudyPlanItem>, itemId: string, currentStatus: bool, stored: bool): (r: seq<StudyPlanItem>)
    ensures !stored ==> r == items
    ensures |r| == |items|
    ensures forall i :: 0 <= i < |items| && items[i].id != itemId ==> r[i] == items[i]
    ensures stored ==> forall i :: 0 <= i < |items| && items[i].id == itemId ==>
              r[i].isCompleted == !currentStatus && (r[i].status == Completed <==> r[i].isCompleted)
              && r[i] == items[i].(isCompleted := r[i].isCompleted, status := r[i].status)
  {
    if !stored then items
    else seq(|items|, i requires 0 <= i < |items| =>
               if items[i].id == itemId then WithCompletion(items[i], !currentStatus) else items[i])
  }

  /** `items.filter(i => i.is_completed).length`. */
  function CompletedCount(items: seq<StudyPlanItem>): (c: nat)
    ensures c <= |items|
  {
    if items == [] then 0
    else CompletedCount(items[..|items| - 1]) + (if items[|items| - 1].isCompleted then 1 else 0)
  }

  lemma {:induction false} CompletedCountUpdate(items: seq<StudyPlanItem>, k: nat, x: StudyPlanItem)
    requires k < |items|
    ensures CompletedCount(items[k := x])
            == CompletedCount(items) - (if items[k].isCompleted then 1 else 0) + (if x.isCompleted then 1 else 0)
  {
    var n := |items|;
    if k < n - 1 {
      assert items[k := x][..n - 1] == items[..n - 1][k := x];
      CompletedCountUpdate(items[..n - 1], k, x);
    } else {
      assert items[k := x][..n - 1] == items[..n - 1];
    }
  }

  /**
   * Ticking the box of item `k` (the page passes its own `is_completed` as
   * `currentStatus`), with ids unique, moves the completed count by one.
   */
  lemma ToggleMovesCountByOne(items: seq<StudyPlanItem>, k: nat)
    requires k < |items|
    requires forall i, j :: 0 <= i < j < |items| ==> items[i].id != items[j].id
    ensures var current := items[k].isCompleted;
            CompletedCount(ToggleTask(items, items[k].id, current, true))
            == if current then CompletedCount(items) - 1 else CompletedCount(items) + 1
  {
    var current := items[k].isCompleted;
    var r := ToggleTask(items, items[k].id, current, true);
    assert r == items[k := WithCompletion(items[k], !current)];
    CompletedCountUpdate(items, k, WithCompletion(items[k], !current));
  }

  lemma MulAtMost(x: nat, y: nat, b: nat)
    requires x <= y
    ensures x * b <= y * b
  {
    assert y * b == x * b + (y - x) * b;
  }

  /** `a / b` is at most `k` when `a` is below `(k + 1) * b`. */
  lemma QuotientAtMost(a: nat, b: nat, k: nat)
    requires b > 0 && a < (k + 1) * b
    ensures a / b <= k
  {
    var q := a / b;
    assert q * b <= a;
    if q > k {
      MulAtMost(k + 1, q, b);
    }
  }

  /** `a / b` is at least `k` when `a` is at least `k * b`. */
  lemma QuotientAtLeast(a: nat, b: nat, k: nat)
    requires b > 0 && k * b <= a
    ensures a / b >= k
  {
    var q := a / b;
    assert a < (q + 1) * b;
    if q < k {
      MulAtMost(q + 1, k, b);
    }
  }

  /** `Math.round(c / t * 100)` in exact arithmetic: `floor(100 c / t + 1/2)`. */
  function RoundedPercent(c: nat, t: nat): (p: nat)
    requires 0 < t && c <= t
    ensures p <= 100
  {
    QuotientAtMost(200 * c + t, 2 * t, 100);
    (200 * c + t) / (2 * t)
  }

  lemma RoundsToHundred(c: nat, t: nat)
    requires 0 < t && c <= t
    ensures RoundedPercent(c, t) == 100 <==> 200 * (t - c) <= t
  {
    if 200 * (t - c) <= t {
      QuotientAtLeast(200 * c + t, 2 * t, 100);
    } else {
      QuotientAtMost(200 * c + t, 2 * t, 99);
    }
  }

  lemma RoundsToZero(c: nat, t: nat)
    requires 0 < t && c <= t
    ensures RoundedPercent(c, t) == 0 <==> 200 * c < t
  {
    if 200 * c < t {
      QuotientAtMost(200 * c + t, 2 * t, 0);
    } else {
      QuotientAtLeast(200 * c + t, 2 * t, 1);
    }
  }

  /** `progress`: 0 for an empty plan, otherwise the completed share in percent, rounded. */
  function Progress(items: seq<StudyPlanItem>): nat {
    if |items| == 0 then 0 else RoundedPercent(CompletedCount(items), |items|)
  }

  /** The remaining-items figure, `totalAulas - completedAulas`, is never negative. */
  function Remaining(items: seq<StudyPlanItem>): (r: nat)
    ensures r + CompletedCount(items) == |items|
  {
    |items| - CompletedCount(items)
  }

  /**
   * The progress lies in [0, 100]; it shows 100 exactly when at most one in two
   * hundred of the items is still open, and 0 exactly when fewer than one in two
   * hundred is done. A complete plan reads 100, one with nothing done reads 0.
   */
  lemma ProgressExtremes(items: seq<StudyPlanItem>)
    requires |items| > 0
    ensures Progress(items) <= 100
    ensures Progress(items) == 100 <==> 200 * Remaining(items) <= |items|
    ensures Progress(items) == 0 <==> 200 * CompletedCount(items) < |items|
    ensures CompletedCount(items) == |items| ==> Progress(items) == 100
    ensures CompletedCount(items) == 0 ==> Progress(items) == 0
  {
    RoundsToHundred(CompletedCount(items), |items|);
    RoundsToZero(CompletedCount(items), |items|);
  }

  /** The "Status Geral" label. */
  function StatusLabel(progress: nat): string {
    if progress == 100 then "Finalizado" else if progress > 0 then "Em progresso" else "Não iniciado"
  }

  /**
   * The label follows the rounded progress: "Finalizado" exactly when at most
   * one item in two hundred is open (so a plan of two hundred or more items can
   * read "Finalizado" with an item left), "Não iniciado" exactly when the plan
   * is empty or fewer than one in two hundred is done.
   */
  lemma StatusOfPlan(items: seq<StudyPlanItem>)
    ensures StatusLabel(Progress(items)) == "Finalizado" <==> |items| > 0 && 200 * Remaining(items) <= |items|
    ensures StatusLabel(Progress(items)) == "Não iniciado" <==> |items| == 0 || 200 * CompletedCount(items) < |items|
    ensures StatusLabel(Progress(items)) == "Em progresso" <==> 0 < Progress(items) < 100
  {
    if |items| > 0 {
      ProgressExtremes(items);
    }
  }

  /** Resetting the plan, once the server has deleted it, empties the checklist. */
  function ResetPlan(items: seq<StudyPlanItem>, deleted: bool): (r: seq<StudyPlanItem>)
    ensures deleted ==> r == [] && Progress(r) == 0
    ensures !deleted ==> r == items
  {
    if deleted then [] else items
  }
}
