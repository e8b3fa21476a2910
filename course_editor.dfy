/**
 * The course editor's unit form: opening it to add or edit a unit, and the
 * record `handleSave` sends to `course_units`, with its title guard and the
 * clean-up of the optional text fields. The editor's buildTree and
 * toggleExpand are the ones in `CourseUnits`.
 */
module CourseEditor {
  import opened Wrappers
  import opened Text
  import opened CourseUnits

  /** The form's state variables; `editing` is `editingUnit`, `showForm` whether the form is open. */
  datatype UnitForm = UnitForm(
    parentId: Option<string>,
    editing: Option<CourseUnit>,
    title: string,
    description: string,
    contentType: string,
    duration: string,
    instructorName: string,
    instructorTitle: string,
    showForm: bool)

  /** `value || ''` on a nullable text column. */
  function OrEmpty(value: Option<string>): (r: string)
    ensures value.None? ==> r == ""
    ensures value.Some? ==> r == value.value
  {
    if value.Some? then value.value else ""
  }

  /** `text || null`: the empty string becomes null. */
  function EmptyToNull(text: string): (r: Option<string>)
    ensures r.None? <==> text == ""
    ensures r.Some? ==> r.value == text
  {
    if text == "" then None else Some(text)
  }

  /** openAddForm: a new unit under `parentId`, every text empty and the type `'unit'`. */
  function OpenAddForm(parentId: Option<string>): (f: UnitForm)
    ensures f.parentId == parentId && f.editing.None? && f.showForm
    ensures f.title == f.description == f.duration == f.instructorName == f.instructorTitle == ""
    ensures f.contentType == "unit"
  {
    UnitForm(parentId, None, "", "", "unit", "", "", "", true)
  }

  /** openEditForm: the unit's own values, with null shown as the empty string. */
  function OpenEditForm(unit: CourseUnit): (f: UnitForm)
    ensures f.parentId == unit.parentId && f.editing == Some(unit) && f.showForm
    ensures f.title == unit.title && f.contentType == unit.contentType
    ensures f.description == OrEmpty(unit.description) && f.duration == OrEmpty(unit.duration)
    ensures f.instructorName == OrEmpty(unit.instructorName) && f.instructorTitle == OrEmpty(unit.instructorTitle)
  {
    UnitForm(unit.parentId, Some(unit), unit.title, OrEmpty(unit.description), unit.contentType,
             OrEmpty(unit.duration), OrEmpty(unit.instructorName), OrEmpty(unit.instructorTitle), true)
  }

  /** The `unitData` record. */
  datatype UnitData = UnitData(
    courseId: string,
    parentId: Option<string>,
    title: string,
    description: Option<string>,
    contentType: string,
    duration: Option<string>,
    instructorName: Option<string>,
    instructorTitle: Option<string>,
    orderIndex: nat)

  /** The request handleSave sends: an update of the unit being edited, or an insert. */
  datatype SaveRequest = UpdateUnit(id: string, data: UnitData) | InsertUnit(data: UnitData)

  /** What a save does: the request, if any, and the form state afterwards. */
  datatype SaveOutcome = SaveOutcome(request: Option<SaveRequest>, form: UnitForm)

  /**
   * `unitData`: the title trimmed; description and instructor fields trimmed,
   * empty ones null; an empty duration null (untrimmed otherwise); the order
   * index the number of root units shown, `units.length`.
   */
  function UnitDataOf(form: UnitForm, courseId: string, rootCount: nat): UnitData {
    UnitData(courseId, form.parentId, Trim(form.title), EmptyToNull(Trim(form.description)), form.contentType,
             EmptyToNull(form.duration), EmptyToNull(Trim(form.instructorName)),
             EmptyToNull(Trim(form.instructorTitle)), rootCount)
  }

  /**
   * handleSave: nothing when the trimmed title is empty; otherwise an update
   * of the edited unit, or an insert, and the form is closed whether or not
   * the request succeeds.
   */
  function HandleSave(form: UnitForm, courseId: string, rootCount: nat): SaveOutcome {
    if Trim(form.title) == "" then SaveOutcome(None, form)
    else
      var data := UnitDataOf(form, courseId, rootCount);
      var request := if form.editing.Some? then UpdateUnit(form.editing.value.id, data) else InsertUnit(data);
      SaveOutcome(Some(request), form.(showForm := false))
  }

  /** A request is sent exactly when the title has a non-whitespace character. */
  lemma SaveNeedsATitle(form: UnitForm, courseId: string, rootCount: nat)
    ensures HandleSave(form, courseId, rootCount).request.None? <==> IsBlank(form.title)
    ensures HandleSave(form, courseId, rootCount).request.None? ==> HandleSave(form, courseId, rootCount).form == form
  {
    TrimEmptyIffBlank(form.title);
  }

  /** A text that trimming leaves alone and that is not empty. */
  predicate Clean(text: string) {
    text != "" && Trim(text) == text
  }

  /**
   * What a sent record looks like: the edited unit's id or an insert, the form's
   * parent, the number of root units as order index whatever the parent, a clean
   * title, and optional fields that are null or clean (a duration only non-empty).
   */
  lemma SavedData(form: UnitForm, courseId: string, rootCount: nat)
    requires !IsBlank(form.title)
    ensures HandleSave(form, courseId, rootCount).form == form.(showForm := false)
    ensures var request := HandleSave(form, courseId, rootCount).request;
            request.Some?
            && (request.value.UpdateUnit? <==> form.editing.Some?)
            && (request.value.UpdateUnit? ==> request.value.id == form.editing.value.id)
            && var data := request.value.data;
               data.courseId == courseId && data.parentId == form.parentId && data.orderIndex == rootCount
               && data.contentType == form.contentType
               && Clean(data.title) && data.title == Trim(form.title)
               && (data.description.None? <==> IsBlank(form.description))
               && (data.description.Some? ==> Clean(data.description.value) && data.description.value == Trim(form.description))
               && (data.duration.None? <==> form.duration == "")
               && (data.duration.Some? ==> data.duration.value == form.duration)
               && (data.instructorName.None? <==> IsBlank(form.instructorName))
               && (data.instructorName.Some? ==> Clean(data.instructorName.value))
               && (data.instructorTitle.None? <==> IsBlank(form.instructorTitle))
               && (data.instructorTitle.Some? ==> Clean(data.instructorTitle.value))
  {
    TrimEmptyIffBlank(form.title);
    TrimEmptyIffBlank(form.description);
    TrimEmptyIffBlank(form.instructorName);
    TrimEmptyIffBlank(form.instructorTitle);
    TrimIdempotent(form.title, Whitespace);
    TrimIdempotent(form.description, Whitespace);
    TrimIdempotent(form.instructorName, Whitespace);
    TrimIdempotent(form.instructorTitle, Whitespace);
  }

  /** An optional text column as handleSave would write it: null or clean. */
  predicate CleanOrNull(value: Option<string>) {
    value.None? || Clean(value.value)
  }

  /** A unit whose stored texts are exactly what handleSave would store. */
  predicate Normalised(unit: CourseUnit) {
    Clean(unit.title) && CleanOrNull(unit.description)
    && (unit.duration.None? || unit.duration.value != "")
    && CleanOrNull(unit.instructorName) && CleanOrNull(unit.instructorTitle)
  }

  lemma CleanOrNullRoundTrip(value: Option<string>)
    requires CleanOrNull(value)
    ensures EmptyToNull(Trim(OrEmpty(value))) == value
  {
  }

  /**
   * Opening a stored unit for editing and saving it unchanged sends an update
   * of that unit that writes back exactly its own values, apart from the order
   * index.
   */
  lemma EditAndSaveUnchanged(unit: CourseUnit, rootCount: nat)
    requires Normalised(unit)
    ensures HandleSave(OpenEditForm(unit), unit.courseId, rootCount).request
            == Some(UpdateUnit(unit.id, UnitData(unit.courseId, unit.parentId, unit.title, unit.description,
                                                 unit.contentType, unit.duration, unit.instructorName,
                                                 unit.instructorTitle, rootCount)))
  {
    CleanOrNullRoundTrip(unit.description);
    CleanOrNullRoundTrip(unit.instructorName);
    CleanOrNullRoundTrip(unit.instructorTitle);
  }
}
