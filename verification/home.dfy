/**
  The home view: the user's notes, the draft form above them and the
  handlers wired to both. Each handler is one atomic transition from the
  view state and the outcome of its backend call to the next view state,
  together with the backend calls it issued, in order.
 */
module Home {
  import opened Outcomes
  import opened TaskList

  /** The form's in-progress title and description. */
  datatype Draft = Draft(title: string, description: string)

  const EmptyDraft := Draft("", "")

  /** The `name` attribute of the two form inputs. */
  datatype Field = Title | Description

  datatype HomeState = HomeState(
    tasks: seq<UserTask>,
    draft: Draft,
    editTaskId: Option<int>,
    loading: bool,           // the list fetch is in flight
    submitting: bool,        // a create or update is in flight
    fetchError: Option<string>)

  /** The view as it mounts. */
  const Initial := HomeState([], EmptyDraft, None, false, false, None)

  /** Requests sent to the `tasks` table. */
  datatype TaskCall =
    | SelectNewestFirst
    | InsertTask(draft: Draft)
    | UpdateTask(id: int, draft: Draft)
    | DeleteTask(id: int)

  datatype Step = Step(state: HomeState, calls: seq<TaskCall>)

  /** JavaScript truthiness of `editTaskId`: neither `null` nor `0`. */
  predicate InEditMode(editTaskId: Option<int>) {
    editTaskId.Some? && editTaskId.value != 0
  }

  /** The fetch on mount: the rows replace the list, or the error text is kept for display. */
  function Load(st: HomeState, fetched: Result<seq<UserTask>>): (r: Step)
    ensures r.calls == [SelectNewestFirst]
    ensures !r.state.loading
    ensures fetched.Ok? ==> r.state.tasks == fetched.value && r.state.fetchError == st.fetchError
    ensures fetched.Err? ==> r.state.tasks == st.tasks && r.state.fetchError == Some(fetched.message)
    ensures r.state.(tasks := st.tasks, loading := st.loading, fetchError := st.fetchError) == st
  {
    var next := match fetched
      case Ok(rows) => st.(tasks := rows)
      case Err(msg) => st.(fetchError := Some(msg));
    Step(next.(loading := false), [SelectNewestFirst])
  }

  /** Typing into one input changes that draft field and nothing else. */
  function Change(st: HomeState, field: Field, value: string): (r: HomeState)
    ensures field == Title ==> r.draft.title == value && r.draft.description == st.draft.description
    ensures field == Description ==> r.draft.description == value && r.draft.title == st.draft.title
    ensures r.(draft := st.draft) == st
  {
    match field
    case Title => st.(draft := st.draft.(title := value))
    case Description => st.(draft := st.draft.(description := value))
  }

  /**
    The form submit. A truthy `editTaskId` sends an update of that row,
    anything else an insert of the draft; whatever the outcome, the draft
    is emptied and the form is released.
   */
  function Submit(st: HomeState, saved: Result<UserTask>): (r: Step)
    ensures r.state.draft == EmptyDraft && !r.state.submitting
    ensures r.state.loading == st.loading && r.state.fetchError == st.fetchError
    ensures InEditMode(st.editTaskId) ==> r.calls == [UpdateTask(st.editTaskId.value, st.draft)]
    ensures !InEditMode(st.editTaskId) ==> r.calls == [InsertTask(st.draft)]
    ensures saved.Err? ==> r.state.tasks == st.tasks && r.state.editTaskId == st.editTaskId
    ensures InEditMode(st.editTaskId) && saved.Ok? ==>
              && r.state.editTaskId == None
              && |r.state.tasks| == |st.tasks|
              && forall i :: 0 <= i < |st.tasks| ==>
                   r.state.tasks[i] == if st.tasks[i].id == st.editTaskId.value then saved.value else st.tasks[i]
    ensures !InEditMode(st.editTaskId) && saved.Ok? ==>
              && r.state.editTaskId == st.editTaskId
              && |r.state.tasks| == |st.tasks| + 1
              && r.state.tasks[..|st.tasks|] == st.tasks
              && r.state.tasks[|st.tasks|] == saved.value
  {
    if InEditMode(st.editTaskId) then
      var id := st.editTaskId.value;
      var next := match saved
        case Ok(row) => st.(tasks := ReplaceId(st.tasks, id, row), editTaskId := None)
        case Err(_) => st;
      Step(next.(submitting := false, draft := EmptyDraft), [UpdateTask(id, st.draft)])
    else
      var next := match saved
        case Ok(row) => st.(tasks := st.tasks + [row])
        case Err(_) => st;
      Step(next.(submitting := false, draft := EmptyDraft), [InsertTask(st.draft)])
  }

  /** The delete button of one card: on success every record of that id leaves the list. */
  function Delete(st: HomeState, id: int, deleted: Result<Unit>): (r: Step)
    ensures r.calls == [DeleteTask(id)]
    ensures deleted.Err? ==> r.state == st
    ensures deleted.Ok? ==>
              && (forall t :: t in r.state.tasks <==> t in st.tasks && t.id != id)
              && (forall t :: multiset(r.state.tasks)[t] == if t.id == id then 0 else multiset(st.tasks)[t])
              && IsSubsequence(r.state.tasks, st.tasks)
              && r.state.(tasks := st.tasks) == st
  {
    WithoutIdSpec(st.tasks, id);
    match deleted
    case Ok(_) => Step(st.(tasks := WithoutId(st.tasks, id)), [DeleteTask(id)])
    case Err(_) => Step(st, [DeleteTask(id)])
  }

  /** The edit button of one card: the form is filled from the held record, no fetch. */
  function EditEntry(st: HomeState, t: UserTask): (r: HomeState)
    ensures r.draft.title == t.title && r.draft.description == t.description
    ensures r.editTaskId == Some(t.id)
    ensures r.(draft := st.draft, editTaskId := st.editTaskId) == st
  {
    st.(draft := Draft(t.title, t.description), editTaskId := Some(t.id))
  }

  /** What the list panel shows. */
  datatype Panel = Skeleton | ErrorText(message: string) | EmptyState | Cards(tasks: seq<UserTask>)

  function ListPanel(st: HomeState): (p: Panel)
    ensures p.Cards? <==> |st.tasks| > 0
    ensures p.Cards? ==> p.tasks == st.tasks
    ensures p == Skeleton <==> |st.tasks| == 0 && st.loading
    ensures p.ErrorText? ==> st.fetchError == Some(p.message) && p.message != ""
    ensures p == EmptyState <==> |st.tasks| == 0 && !st.loading && (st.fetchError.None? || st.fetchError.value == "")
  {
    if |st.tasks| == 0 then
      if st.loading then Skeleton
      else if st.fetchError.Some? && st.fetchError.value != "" then ErrorText(st.fetchError.value)
      else EmptyState
    else Cards(st.tasks)
  }

  /** The submit button's caption: the pending text while a submit is in flight, else the branch the next submit takes. */
  function SubmitLabel(st: HomeState): (caption: string)
    ensures caption == "adding..." <==> st.submitting
    ensures caption == "Update Task" <==> !st.submitting && InEditMode(st.editTaskId)
    ensures caption == "Add Task" <==> !st.submitting && !InEditMode(st.editTaskId)
  {
    if st.submitting then "adding..."
    else if InEditMode(st.editTaskId) then "Update Task"
    else "Add Task"
  }

  /** The caption announces the branch the next submit takes. */
  lemma LabelMatchesBranch(st: HomeState, saved: Result<UserTask>)
    requires !st.submitting
    ensures SubmitLabel(st) == "Update Task" <==> Submit(st, saved).calls[0].UpdateTask?
    ensures SubmitLabel(st) == "Add Task" <==> Submit(st, saved).calls[0].InsertTask?
  {
  }

  /** Editing one record and then another leaves only the second's values in the form. */
  lemma EditEntryForgetsEarlier(st: HomeState, a: UserTask, b: UserTask)
    ensures EditEntry(EditEntry(st, a), b) == EditEntry(st, b)
  {
  }

  /** Submitting right after edit-entry of a record with a non-zero id updates that record with its own values. */
  lemma EditThenSubmitUpdates(st: HomeState, t: UserTask, saved: Result<UserTask>)
    requires t.id != 0
    ensures Submit(EditEntry(st, t), saved).calls == [UpdateTask(t.id, Draft(t.title, t.description))]
  {
  }

  /**
    Edit-entry on a record with id 0 leaves the form in create mode: the
    next submit inserts the draft as a new record, and `editTaskId` stays 0
    whatever the outcome.
   */
  lemma ZeroIdSubmitInserts(st: HomeState, t: UserTask, saved: Result<UserTask>)
    requires t.id == 0
    ensures Submit(EditEntry(st, t), saved).calls == [InsertTask(Draft(t.title, t.description))]
    ensures Submit(EditEntry(st, t), saved).state.editTaskId == Some(0)
  {
  }

  /** A successful create followed by deleting the returned id restores the list, when that id was new. */
  lemma DeleteUndoesCreate(st: HomeState, row: UserTask)
    requires !InEditMode(st.editTaskId)
    requires row.id !in Ids(st.tasks)
    ensures Delete(Submit(st, Ok(row)).state, row.id, Ok(())).state.tasks == st.tasks
  {
    DeleteUndoesAppend(st.tasks, row);
  }

  /**
    The list never holds two records with one id, as long as the backend
    returns a new id on insert and the edited row's own id on update.
   */
  lemma SubmitKeepsIdsUnique(st: HomeState, saved: Result<UserTask>)
    requires UniqueIds(st.tasks)
    requires saved.Ok? && InEditMode(st.editTaskId) ==> saved.value.id == st.editTaskId.value
    requires saved.Ok? && !InEditMode(st.editTaskId) ==> saved.value.id !in Ids(st.tasks)
    ensures UniqueIds(Submit(st, saved).state.tasks)
  {
    if saved.Ok? {
      if InEditMode(st.editTaskId) {
        ReplaceKeepsUnique(st.tasks, st.editTaskId.value, saved.value);
      } else {
        AppendFreshKeepsUnique(st.tasks, saved.value);
      }
    }
  }

  /** Deleting keeps the ids of the list unique. */
  lemma DeleteKeepsIdsUnique(st: HomeState, id: int, deleted: Result<Unit>)
    requires UniqueIds(st.tasks)
    ensures UniqueIds(Delete(st, id, deleted).state.tasks)
  {
    WithoutIdKeepsUnique(st.tasks, id);
  }

  /**
    Create "Buy milk"/"2%", edit it to "whole", delete it: one card, then
    one card with the same id, then the empty-state panel.
   */
  lemma CreateUpdateDeleteScenario()
    ensures
      var created := UserTask(7, "2025-01-01T10:00:00Z", "Buy milk", "2%");
      var updated := created.(description := "whole");
      var s1 := Load(Initial, Ok([])).state;
      var s2 := Change(Change(s1, Title, "Buy milk"), Description, "2%");
      var s3 := Submit(s2, Ok(created)).state;
      var s4 := Change(EditEntry(s3, created), Description, "whole");
      var s5 := Submit(s4, Ok(updated)).state;
      var s6 := Delete(s5, 7, Ok(())).state;
      && s3.tasks == [created]
      && s5.tasks == [updated] && s5.editTaskId == None
      && ListPanel(s6) == EmptyState
  {
    var created := UserTask(7, "2025-01-01T10:00:00Z", "Buy milk", "2%");
    var updated := created.(description := "whole");
    var s1 := Load(Initial, Ok([])).state;
    var s2 := Change(Change(s1, Title, "Buy milk"), Description, "2%");
    var s3 := Submit(s2, Ok(created)).state;
    assert s3.tasks == [created];
    var s4 := Change(EditEntry(s3, created), Description, "whole");
    var s5 := Submit(s4, Ok(updated)).state;
    assert s5.tasks == [updated];
    var s6 := Delete(s5, 7, Ok(())).state;
    assert s6.tasks == [];
  }

  /**
    What the list panel shows right after the fetch: the fetched records
    when there are any; the error text when the fetch fails on an empty
    list; the empty state when an empty fetch succeeds and no error was
    recorded.
   */
  lemma LoadThenPanel(st: HomeState, fetched: Result<seq<UserTask>>)
    ensures fetched.Ok? && |fetched.value| > 0 ==> ListPanel(Load(st, fetched).state) == Cards(fetched.value)
    ensures fetched.Ok? && fetched.value == [] && st.fetchError.None? ==> ListPanel(Load(st, fetched).state) == EmptyState
    ensures fetched.Err? && |st.tasks| == 0 && fetched.message != "" ==>
              ListPanel(Load(st, fetched).state) == ErrorText(fetched.message)
    ensures fetched.Err? && |st.tasks| > 0 ==> ListPanel(Load(st, fetched).state) == Cards(st.tasks)
  {
  }

  /** A field edit reaches the next submit: the call carries the new value and the other field as it was. */
  lemma ChangeThenSubmit(st: HomeState, field: Field, value: string, saved: Result<UserTask>)
    ensures Submit(Change(st, field, value), saved).calls[0].UpdateTask? == Submit(st, saved).calls[0].UpdateTask?
    ensures field == Title ==> Submit(Change(st, field, value), saved).calls[0].draft == Draft(value, st.draft.description)
    ensures field == Description ==> Submit(Change(st, field, value), saved).calls[0].draft == Draft(st.draft.title, value)
  {
  }

  /** The last edit of a field wins, and edits of different fields commute. */
  lemma ChangesCombine(st: HomeState, f: Field, g: Field, a: string, b: string)
    ensures f == g ==> Change(Change(st, f, a), g, b) == Change(st, g, b)
    ensures f != g ==> Change(Change(st, f, a), g, b) == Change(Change(st, g, b), f, a)
  {
  }

  /** Everything that can happen to the home view. */
  datatype Event =
    | Fetched(fetched: Result<seq<UserTask>>)
    | Typed(field: Field, value: string)
    | Submitted(saved: Result<UserTask>)
    | Deleted(id: int, deleted: Result<Unit>)
    | EditClicked(t: UserTask)

  function Apply(st: HomeState, e: Event): HomeState {
    match e
    case Fetched(fetched) => Load(st, fetched).state
    case Typed(field, value) => Change(st, field, value)
    case Submitted(saved) => Submit(st, saved).state
    case Deleted(id, deleted) => Delete(st, id, deleted).state
    case EditClicked(t) => EditEntry(st, t)
  }

  function Run(st: HomeState, events: seq<Event>): HomeState
    decreases |events|
  {
    if events == [] then st else Run(Apply(st, events[0]), events[1..])
  }

  /**
    The backend's reply to one event respects ids: fetched rows have
    distinct ids, an insert returns a new id, an update returns the edited
    row's id.
   */
  predicate ServerKeepsIds(st: HomeState, e: Event) {
    match e
    case Fetched(Ok(rows)) => UniqueIds(rows)
    case Submitted(Ok(row)) =>
      if InEditMode(st.editTaskId) then row.id == st.editTaskId.value else row.id !in Ids(st.tasks)
    case _ => true
  }

  /** Every reply along the trace respects ids, each judged in the state it arrives in. */
  predicate ServerKeepsIdsThroughout(st: HomeState, events: seq<Event>)
    decreases |events|
  {
    events == [] || (ServerKeepsIds(st, events[0]) && ServerKeepsIdsThroughout(Apply(st, events[0]), events[1..]))
  }

  /** One event keeps the ids unique when the backend's reply respects ids. */
  lemma ApplyKeepsIdsUnique(st: HomeState, e: Event)
    requires UniqueIds(st.tasks) && ServerKeepsIds(st, e)
    ensures UniqueIds(Apply(st, e).tasks)
  {
    match e
    case Fetched(_) =>
    case Typed(_, _) =>
    case Submitted(saved) => SubmitKeepsIdsUnique(st, saved);
    case Deleted(id, deleted) => DeleteKeepsIdsUnique(st, id, deleted);
    case EditClicked(_) =>
  }

  /**
    Over any sequence of fetches, edits, submits, deletes and edit-entries,
    the list never holds two records with one id, as long as every reply of
    the backend respects ids.
   */
  lemma {:induction false} RunKeepsIdsUnique(st: HomeState, events: seq<Event>)
    requires UniqueIds(st.tasks)
    requires ServerKeepsIdsThroughout(st, events)
    ensures UniqueIds(Run(st, events).tasks)
    decreases |events|
  {
    if events != [] {
      ApplyKeepsIdsUnique(st, events[0]);
      RunKeepsIdsUnique(Apply(st, events[0]), events[1..]);
    }
  }

  /** From the freshly mounted view, any trace with id-respecting replies keeps ids unique. */
  lemma InitialRunKeepsIdsUnique(events: seq<Event>)
    requires ServerKeepsIdsThroughout(Initial, events)
    ensures UniqueIds(Run(Initial, events).tasks)
  {
    RunKeepsIdsUnique(Initial, events);
  }
}
