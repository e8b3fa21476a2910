/**
 * The planner form: the row editor for subjects and their missed classes, the
 * weekday toggles, the running total and the two buttons that hand the named
 * subjects to the plan generator.
 */
module PlannerPage {
  import opened Text
  import opened PlanCalculator

  // ---------------------------------------------------------------------------
  // Study days

  /** The weekday indices without any occurrence of `d`. */
  function Without(days: seq<int>, d: int): (r: seq<int>)
    ensures |r| <= |days|
    ensures forall x :: x in r <==> x in days && x != d
  {
    if days == [] then []
    else if days[0] == d then Without(days[1..], d)
    else [days[0]] + Without(days[1..], d)
  }

  /** Removing keeps the other days in their order: those of `a + b` are those of `a`, then those of `b`. */
  lemma {:induction false} WithoutAppend(a: seq<int>, b: seq<int>, d: int)
    ensures Without(a + b, d) == Without(a, d) + Without(b, d)
  {
    if a == [] {
      assert a + b == b;
    } else {
      assert (a + b)[0] == a[0] && (a + b)[1..] == a[1..] + b;
      WithoutAppend(a[1..], b, d);
      if a[0] != d {
        assert [a[0]] + Without(a[1..], d) + Without(b, d) == [a[0]] + (Without(a[1..], d) + Without(b, d));
      }
    }
  }

  /** A single day stays exactly when it is not `d`. */
  lemma WithoutSingle(x: int, d: int)
    ensures Without([x], d) == if x == d then [] else [x]
  {
    assert [x][1..] == [];
  }

  /** `toggleStudyDay`: drops the index if it is selected, otherwise appends it. */
  function ToggleStudyDay(days: seq<int>, d: int): seq<int> {
    if d in days then Without(days, d) else days + [d]
  }

  predicate NoDuplicates(days: seq<int>) {
    forall i, j :: 0 <= i < j < |days| ==> days[i] != days[j]
  }

  /** Removing keeps the order of what is left, so it keeps the list free of duplicates. */
  lemma {:induction false} WithoutKeepsNoDuplicates(days: seq<int>, d: int)
    requires NoDuplicates(days)
    ensures NoDuplicates(Without(days, d))
  {
    if days != [] {
      assert NoDuplicates(days[1..]) by {
        forall i, j | 0 <= i < j < |days| - 1 ensures days[1..][i] != days[1..][j] {
          assert days[1..][i] == days[i + 1] && days[1..][j] == days[j + 1];
        }
      }
      WithoutKeepsNoDuplicates(days[1..], d);
      if days[0] != d {
        var rest := Without(days[1..], d);
        assert days[0] !in days[1..] by {
          forall k | 0 <= k < |days| - 1 ensures days[1..][k] != days[0] {
            assert days[1..][k] == days[k + 1];
          }
        }
        assert days[0] !in rest;
        var r := [days[0]] + rest;
        forall i, j | 0 <= i < j < |r| ensures r[i] != r[j] {
          assert r[j] == rest[j - 1];
          if i > 0 { assert r[i] == rest[i - 1]; }
        }
      }
    }
  }

  /** The toggle flips the membership of `d` alone and never introduces a duplicate. */
  lemma ToggleStudyDaySpec(days: seq<int>, d: int)
    requires NoDuplicates(days)
    ensures var r := ToggleStudyDay(days, d);
            NoDuplicates(r)
            && (d in r <==> d !in days)
            && forall x :: x != d ==> (x in r <==> x in days)
  {
    if d in days {
      WithoutKeepsNoDuplicates(days, d);
    } else {
      var r := days + [d];
      forall i, j | 0 <= i < j < |r| ensures r[i] != r[j] {
        if j == |days| { assert r[i] == days[i]; }
      }
    }
  }

  /** Without an occurrence of `d`, removing it changes nothing. */
  lemma {:induction false} WithoutAbsent(days: seq<int>, d: int)
    requires d !in days
    ensures Without(days, d) == days
  {
    if days != [] {
      assert days[1..] + [] == days[1..];
      WithoutAbsent(days[1..], d);
      assert [days[0]] + days[1..] == days;
    }
  }

  /**
   * Toggling the same weekday twice restores the selection: exactly when the
   * day was not selected, and as a set of days when it was (it moves to the end).
   */
  lemma ToggleTwice(days: seq<int>, d: int)
    ensures d !in days ==> ToggleStudyDay(ToggleStudyDay(days, d), d) == days
    ensures forall x :: x in ToggleStudyDay(ToggleStudyDay(days, d), d) <==> x in days
  {
    if d !in days {
      WithoutAbsent(days, d);
      assert Without(days + [d], d) == Without(days, d) by {
        WithoutSnoc(days, d, d);
      }
    } else {
      assert d !in Without(days, d);
    }
  }

  lemma {:induction false} WithoutSnoc(days: seq<int>, x: int, d: int)
    ensures Without(days + [x], d) == Without(days, d) + (if x == d then [] else [x])
  {
    if days == [] {
      assert [] + [x] == [x];
    } else {
      assert (days + [x])[1..] == days[1..] + [x];
      assert (days + [x])[0] == days[0];
      WithoutSnoc(days[1..], x, d);
    }
  }

  // ---------------------------------------------------------------------------
  // Subject rows

  /** The two fields a row's inputs and buttons edit. */
  datatype FieldUpdate = SetName(name: string) | SetMissedClasses(count: int)

  function Apply(s: Subject, u: FieldUpdate): Subject {
    match u
    case SetName(name) => s.(name := name)
    case SetMissedClasses(count) => s.(missedClasses := count)
  }

  /** `handleSubjectChange`: the rows with the given id get the new field value. */
  function HandleSubjectChange(subjects: seq<Subject>, id: int, u: FieldUpdate): (r: seq<Subject>)
    ensures |r| == |subjects|
    ensures forall i :: 0 <= i < |r| ==> r[i].id == subjects[i].id
    ensures forall i :: 0 <= i < |r| && subjects[i].id != id ==> r[i] == subjects[i]
    ensures forall i :: 0 <= i < |r| && subjects[i].id == id ==>
              match u
              case SetName(name) =>
                r[i].name == name && r[i].missedClasses == subjects[i].missedClasses
              case SetMissedClasses(count) =>
                r[i].missedClasses == count && r[i].name == subjects[i].name
  {
    seq(|subjects|, i requires 0 <= i < |subjects| =>
                      if subjects[i].id == id then Apply(subjects[i], u) else subjects[i])
  }

  /** `addSubject`: a blank row with no missed classes at the end; the id is the clock's value. */
  function AddSubject(subjects: seq<Subject>, newId: int): (r: seq<Subject>)
    ensures |r| == |subjects| + 1 && r[..|subjects|] == subjects
    ensures r[|subjects|] == Subject(newId, "", 0)
  {
    subjects + [Subject(newId, "", 0)]
  }

  /** `removeSubject`: drops exactly the rows with the given id, keeping the order of the rest. */
  function RemoveSubject(subjects: seq<Subject>, id: int): (r: seq<Subject>)
    ensures |r| <= |subjects|
    ensures forall x :: x in r <==> x in subjects && x.id != id
  {
    if subjects == [] then []
    else if subjects[0].id == id then RemoveSubject(subjects[1..], id)
    else [subjects[0]] + RemoveSubject(subjects[1..], id)
  }

  /** Removing keeps the other rows in their order: those of `a + b` are those of `a`, then those of `b`. */
  lemma {:induction false} RemoveSubjectAppend(a: seq<Subject>, b: seq<Subject>, id: int)
    ensures RemoveSubject(a + b, id) == RemoveSubject(a, id) + RemoveSubject(b, id)
  {
    if a == [] {
      assert a + b == b;
    } else {
      assert (a + b)[0] == a[0] && (a + b)[1..] == a[1..] + b;
      RemoveSubjectAppend(a[1..], b, id);
      if a[0].id != id {
        assert [a[0]] + RemoveSubject(a[1..], id) + RemoveSubject(b, id) == [a[0]] + (RemoveSubject(a[1..], id) + RemoveSubject(b, id));
      }
    }
  }

  /** A single row stays exactly when it has another id. */
  lemma RemoveSubjectSingle(x: Subject, id: int)
    ensures RemoveSubject([x], id) == if x.id == id then [] else [x]
  {
    assert [x][1..] == [];
  }

  predicate UniqueIds(subjects: seq<Subject>) {
    forall i, j :: 0 <= i < j < |subjects| ==> subjects[i].id != subjects[j].id
  }

  /** The remove button is disabled while only one row is left. */
  function RemoveClick(subjects: seq<Subject>, id: int): seq<Subject> {
    if |subjects| <= 1 then subjects else RemoveSubject(subjects, id)
  }

  /** With distinct ids, removing one id drops at most one row. */
  lemma {:induction false} RemoveSubjectDropsOne(subjects: seq<Subject>, id: int)
    requires UniqueIds(subjects)
    ensures |RemoveSubject(subjects, id)| >= |subjects| - 1
  {
    if subjects != [] {
      assert UniqueIds(subjects[1..]) by {
        forall i, j | 0 <= i < j < |subjects| - 1 ensures subjects[1..][i].id != subjects[1..][j].id {
          assert subjects[1..][i] == subjects[i + 1] && subjects[1..][j] == subjects[j + 1];
        }
      }
      if subjects[0].id == id {
        RemoveSubjectAbsent(subjects[1..], id);
      } else {
        RemoveSubjectDropsOne(subjects[1..], id);
      }
    }
  }

  /** Removing an id no row has changes nothing. */
  lemma {:induction false} RemoveSubjectAbsent(subjects: seq<Subject>, id: int)
    requires forall i :: 0 <= i < |subjects| ==> subjects[i].id != id
    ensures RemoveSubject(subjects, id) == subjects
  {
    if subjects != [] {
      RemoveSubjectAbsent(subjects[1..], id);
      assert [subjects[0]] + subjects[1..] == subjects;
    }
  }

  /** With distinct ids the form never loses its last row. */
  lemma RemoveClickKeepsARow(subjects: seq<Subject>, id: int)
    requires UniqueIds(subjects) && |subjects| >= 1
    ensures |RemoveClick(subjects, id)| >= 1
  {
    if |subjects| > 1 {
      RemoveSubjectDropsOne(subjects, id);
    }
  }

  /** The minus button: lowers the row's count by one, and only while it is positive. */
  function DecrementClick(subjects: seq<Subject>, row: Subject): seq<Subject> {
    if row.missedClasses > 0 then HandleSubjectChange(subjects, row.id, SetMissedClasses(row.missedClasses - 1))
    else subjects
  }

  /** The plus button: raises the row's count by exactly one. */
  function IncrementClick(subjects: seq<Subject>, row: Subject): seq<Subject> {
    HandleSubjectChange(subjects, row.id, SetMissedClasses(row.missedClasses + 1))
  }

  /**
   * The minus button lowers a positive count by one and leaves any other count
   * (zero, or a negative one typed into the field) as it is, so it never makes
   * a count negative; the plus button raises the count by one.
   */
  lemma ClicksKeepCountsNatural(subjects: seq<Subject>, k: nat)
    requires k < |subjects| && UniqueIds(subjects)
    ensures DecrementClick(subjects, subjects[k])[k].missedClasses
            == (if subjects[k].missedClasses > 0 then subjects[k].missedClasses - 1 else subjects[k].missedClasses)
    ensures subjects[k].missedClasses >= 0 ==> DecrementClick(subjects, subjects[k])[k].missedClasses >= 0
    ensures IncrementClick(subjects, subjects[k])[k].missedClasses == subjects[k].missedClasses + 1
  {
  }

  /** A plus click followed by a minus click on the same row restores the form. */
  lemma IncrementThenDecrement(subjects: seq<Subject>, k: nat)
    requires k < |subjects| && UniqueIds(subjects) && subjects[k].missedClasses >= 0
    ensures var raised := IncrementClick(subjects, subjects[k]);
            DecrementClick(raised, raised[k]) == subjects
  {
    var raised := IncrementClick(subjects, subjects[k]);
    var back := DecrementClick(raised, raised[k]);
    assert raised[k].missedClasses == subjects[k].missedClasses + 1 > 0;
    forall i | 0 <= i < |subjects| ensures back[i] == subjects[i] {
      if i != k { assert subjects[i].id != subjects[k].id; }
    }
  }

  // ---------------------------------------------------------------------------
  // Totals and generation

  /** `totalMissedClasses`: the sum over every row, blank-named ones included. */
  function TotalMissedClasses(subjects: seq<Subject>): int {
    SumMissed(subjects)
  }

  /** The rows the generator ignores. */
  function BlankRows(subjects: seq<Subject>): (r: seq<Subject>)
    ensures forall x :: x in r <==> x in subjects && IsBlank(x.name)
  {
    if subjects == [] then []
    else if IsBlank(subjects[0].name) then [subjects[0]] + BlankRows(subjects[1..])
    else BlankRows(subjects[1..])
  }

  /**
   * The form's total is the plan's total plus the classes of blank-named rows,
   * so the two differ exactly by what the ignored rows hold.
   */
  lemma {:induction false} TotalSplits(subjects: seq<Subject>)
    ensures TotalMissedClasses(subjects) == SumMissed(ValidSubjects(subjects)) + SumMissed(BlankRows(subjects))
  {
    if subjects != [] {
      TotalSplits(subjects[1..]);
      var x := subjects[0];
      if IsBlank(x.name) {
        assert ([x] + BlankRows(subjects[1..]))[1..] == BlankRows(subjects[1..]);
      } else {
        assert ([x] + ValidSubjects(subjects[1..]))[1..] == ValidSubjects(subjects[1..]);
      }
    }
  }

  /** A new blank row changes neither the subjects the generator sees nor the total. */
  lemma AddSubjectIsIgnored(subjects: seq<Subject>, newId: int)
    ensures ValidSubjects(AddSubject(subjects, newId)) == ValidSubjects(subjects)
    ensures TotalMissedClasses(AddSubject(subjects, newId)) == TotalMissedClasses(subjects)
  {
    var row := Subject(newId, "", 0);
    ValidSubjectsAppendBlank(subjects, row);
    SumMissedAppend(subjects, [row]);
    assert [row][1..] == [];
  }

  lemma {:induction false} ValidSubjectsAppendBlank(subjects: seq<Subject>, row: Subject)
    requires IsBlank(row.name)
    ensures ValidSubjects(subjects + [row]) == ValidSubjects(subjects)
  {
    if subjects == [] {
      assert [] + [row] == [row];
      assert [row][1..] == [];
    } else {
      assert (subjects + [row])[1..] == subjects[1..] + [row];
      assert (subjects + [row])[0] == subjects[0];
      ValidSubjectsAppendBlank(subjects[1..], row);
    }
  }

  /** What pressing the generate button leads to. */
  datatype Outcome =
    | AlertNoSubject
    /** A signed-in user's named subjects are stored and the dashboard opens. */
    | SavedToAccount(subjects: seq<Subject>)
    /** A guest's plan is computed locally and exported as a PDF. */
    | ExportedPlan(plan: StudyPlan)

  predicate ValidForm(cat: Catalogue, minutesPerDay: nat, quoteIndex: nat) {
    ValidCatalogue(cat) && ValidBudget(minutesPerDay) && quoteIndex < |cat.quotes|
  }

  /** `generatePlan`: nothing but an alert without a named subject. */
  function GeneratePlan(cat: Catalogue, subjects: seq<Subject>, minutesPerDay: nat, studyDays: seq<int>,
                        quoteIndex: nat, signedIn: bool): Outcome
    requires ValidForm(cat, minutesPerDay, quoteIndex)
  {
    var valid := ValidSubjects(subjects);
    if |valid| == 0 then AlertNoSubject
    else if signedIn then SavedToAccount(valid)
    else ExportedPlan(ExpectedPlan(cat, valid, minutesPerDay, studyDays, quoteIndex))
  }

  /** `generatePDFOnly`: the guest path of `generatePlan` whoever is signed in. */
  function GeneratePDFOnly(cat: Catalogue, subjects: seq<Subject>, minutesPerDay: nat, studyDays: seq<int>,
                           quoteIndex: nat): Outcome
    requires ValidForm(cat, minutesPerDay, quoteIndex)
  {
    var valid := ValidSubjects(subjects);
    if |valid| == 0 then AlertNoSubject
    else ExportedPlan(ExpectedPlan(cat, valid, minutesPerDay, studyDays, quoteIndex))
  }

  /** The generator's own filter makes the page's one a no-op. */
  lemma PlanOfNamedSubjects(cat: Catalogue, subjects: seq<Subject>, minutesPerDay: nat, studyDays: seq<int>,
                            quoteIndex: nat)
    requires ValidForm(cat, minutesPerDay, quoteIndex)
    ensures ExpectedPlan(cat, ValidSubjects(subjects), minutesPerDay, studyDays, quoteIndex)
            == ExpectedPlan(cat, subjects, minutesPerDay, studyDays, quoteIndex)
  {
    ValidSubjectsIdempotent(subjects);
  }

  /**
   * Both buttons alert exactly when every row's name is blank. Otherwise a
   * signed-in user's named rows are stored, and a guest gets the plan of the
   * form's subjects, which covers at least one subject.
   */
  lemma GenerateNeedsANamedSubject(cat: Catalogue, subjects: seq<Subject>, minutesPerDay: nat,
                                   studyDays: seq<int>, quoteIndex: nat, signedIn: bool)
    requires ValidForm(cat, minutesPerDay, quoteIndex)
    ensures var outcome := GeneratePlan(cat, subjects, minutesPerDay, studyDays, quoteIndex, signedIn);
            outcome == AlertNoSubject <==> forall x :: x in subjects ==> IsBlank(x.name)
    ensures var outcome := GeneratePDFOnly(cat, subjects, minutesPerDay, studyDays, quoteIndex);
            outcome == AlertNoSubject <==> forall x :: x in subjects ==> IsBlank(x.name)
    ensures var outcome := GeneratePlan(cat, subjects, minutesPerDay, studyDays, quoteIndex, signedIn);
            signedIn && outcome != AlertNoSubject ==> outcome == SavedToAccount(ValidSubjects(subjects))
    ensures !signedIn ==> GeneratePlan(cat, subjects, minutesPerDay, studyDays, quoteIndex, signedIn)
                          == GeneratePDFOnly(cat, subjects, minutesPerDay, studyDays, quoteIndex)
    ensures var outcome := GeneratePDFOnly(cat, subjects, minutesPerDay, studyDays, quoteIndex);
            outcome.ExportedPlan? ==>
              outcome.plan == ExpectedPlan(cat, subjects, minutesPerDay, studyDays, quoteIndex)
              && outcome.plan.summary.totalSubjects >= 1
  {
    var valid := ValidSubjects(subjects);
    if |valid| == 0 {
      assert forall x :: x in subjects ==> IsBlank(x.name);
    } else {
      assert valid[0] in valid;
      PlanOfNamedSubjects(cat, subjects, minutesPerDay, studyDays, quoteIndex);
    }
  }
}
