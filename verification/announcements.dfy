/** The announcements page: the dialog state, the save-enabled test, and
    the save and delete handlers. The clock reading `new Date().toISOString()`
    is the parameter `now`. */
module Announcements {
  import opened Wrappers
  import opened Store
  import Seqs
  import Text

  /** The dialog's state: the two text fields, the id being edited (None for
      null) and the announcement selected for editing. */
  datatype Dialog = Dialog(title: string, content: string, editingId: Option<string>, selected: Option<Record>)

  /** A string field of a record, "" when it is missing or not a string. */
  function TextField(r: Record, f: string): string {
    match Field(r, f)
    case Some(Str(s)) => s
    case _ => ""
  }

  /** `handleAnnouncementDialogOpen`: an existing announcement fills the
      fields and selects itself for editing; none leaves everything empty. */
  function OpenDialog(a: Option<Record>): (d: Dialog)
    ensures a.None? ==> d == Dialog("", "", None, None)
    ensures a.Some? ==> d.selected == a && d.editingId == IdOf(a.value) &&
                        d.title == TextField(a.value, "title") && d.content == TextField(a.value, "content")
  {
    match a
    case None => Dialog("", "", None, None)
    case Some(r) => Dialog(TextField(r, "title"), TextField(r, "content"), IdOf(r), Some(r))
  }

  /** The Save button is enabled only when both trimmed fields are
      non-empty. */
  predicate SaveEnabled(d: Dialog) {
    !Text.Blank(d.title) && !Text.Blank(d.content)
  }

  /** Enabled exactly when each field holds a character that trimming
      keeps. */
  lemma SaveEnabledIff(d: Dialog)
    ensures SaveEnabled(d) <==>
              (exists i :: 0 <= i < |d.title| && !Text.IsTrimSpace(d.title[i])) &&
              (exists i :: 0 <= i < |d.content| && !Text.IsTrimSpace(d.content[i]))
  {
    Text.BlankIff(d.title);
    Text.BlankIff(d.content);
  }

  /** `if (editingAnnouncementId)`: a non-empty id selects an edit. */
  predicate Editing(d: Dialog) {
    d.editingId.Some? && d.editingId.value != ""
  }

  /** `{ ...selectedAnnouncement, title, content }`, spreading null as
      nothing. */
  function Edited(d: Dialog): (r: Record)
    ensures r.Keys == (if d.selected.Some? then d.selected.value.Keys else {}) + {"title", "content"}
    ensures r["title"] == Str(d.title) && r["content"] == Str(d.content)
    ensures d.selected.Some? ==>
              forall k :: k in d.selected.value && k !in {"title", "content"} ==> r[k] == d.selected.value[k]
  {
    (if d.selected.Some? then d.selected.value else map[]) +
      map["title" := Str(d.title), "content" := Str(d.content)]
  }

  /** The record a new announcement is created from. */
  function Fresh(d: Dialog, now: string): (r: Record)
    ensures r.Keys == {"title", "content", "date"}
    ensures r["title"] == Str(d.title) && r["content"] == Str(d.content) && r["date"] == Str(now)
  {
    map["title" := Str(d.title), "content" := Str(d.content), "date" := Str(now)]
  }

  /** Why a save writes nothing: the button is disabled. */
  datatype SaveError = SaveDisabled

  /** The Save click, `handleAnnouncementSave`: an edit replaces the stored
      announcement by the selected one with the new title and content, under
      the edited id; a create appends title, content and the date `now`. A
      disabled button writes nothing. An update whose id is no longer stored
      writes nothing and reports nothing. */
  function SaveAnnouncement(store: Table, d: Dialog, now: string, roll: nat): (r: Result<Table, SaveError>)
    requires roll < IdRange
    ensures !SaveEnabled(d) ==> r == Failure(SaveDisabled)
    ensures SaveEnabled(d) && !Editing(d) ==>
              r.Success? && |r.value| == |store| + 1 && r.value[..|store|] == store &&
              r.value[|store|] == Stamp(NewId(roll), Fresh(d, now))
    ensures SaveEnabled(d) && Editing(d) ==>
              r.Success? && |r.value| == |store| &&
              (GetById(store, d.editingId.value).None? ==> r.value == store) &&
              forall j :: 0 <= j < |store| ==>
                r.value[j] == (if FindIndex(store, ById(d.editingId.value)) == Some(j)
                               then Stamp(d.editingId.value, Edited(d)) else store[j])
  {
    if !SaveEnabled(d) then Failure(SaveDisabled)
    else if Editing(d) then
      match Update(store, d.editingId.value, Edited(d))
      case Failure(_) =>
        assert FindIndex(store, ById(d.editingId.value)).None? by { ByIdIff(d.editingId.value); }
        Success(store)
      case Success(t) => Success(t)
    else
      Success(Create(store, roll, Fresh(d, now)).table)
  }

  /** Editing an announcement opened from the list keeps its id and its
      date and replaces only the title and the content; the other
      announcements are unchanged. */
  lemma EditKeepsIdAndDate(store: Table, a: Record, id: string, title: string, content: string,
                           now: string, roll: nat)
    requires roll < IdRange
    requires IdOf(a) == Some(id) && id != "" && GetById(store, id).Some?
    requires !Text.Blank(title) && !Text.Blank(content)
    ensures var d := OpenDialog(Some(a)).(title := title, content := content);
            var r := SaveAnnouncement(store, d, now, roll);
            r.Success? &&
            GetById(r.value, id).Some? &&
            var e := GetById(r.value, id).value;
            e.Keys == a.Keys + {"title", "content"} &&
            Field(e, "id") == Field(a, "id") && Field(e, "date") == Field(a, "date") &&
            e["title"] == Str(title) && e["content"] == Str(content) &&
            forall k :: k in a && k !in {"title", "content"} ==> e[k] == a[k]
  {
    var d := OpenDialog(Some(a)).(title := title, content := content);
    assert Editing(d);
    var ed := Edited(d);
    EditedKeepsIdAndDate(d, a);
    assert IdOf(ed) == Some(id);
    StampOwnId(id, ed);
    UpdateThenGet(store, id, ed);
  }

  /** The merge keeps the selected announcement's id and date. */
  lemma EditedKeepsIdAndDate(d: Dialog, a: Record)
    requires d.selected == Some(a)
    ensures Field(Edited(d), "id") == Field(a, "id")
    ensures Field(Edited(d), "date") == Field(a, "date")
  {
    assert "id" !in {"title", "content"} && "date" !in {"title", "content"};
  }

  /** A created announcement is found by its new id holding exactly the
      title, the content and the date of creation. */
  lemma CreateStoresDate(store: Table, title: string, content: string, now: string, roll: nat)
    requires roll < IdRange
    requires GetById(store, NewId(roll)).None?
    requires !Text.Blank(title) && !Text.Blank(content)
    ensures var d := OpenDialog(None).(title := title, content := content);
            var r := SaveAnnouncement(store, d, now, roll);
            r.Success? && GetById(r.value, NewId(roll)).Some? &&
            var e := GetById(r.value, NewId(roll)).value;
            e.Keys == {"id", "title", "content", "date"} &&
            e["id"] == Str(NewId(roll)) && e["title"] == Str(title) && e["content"] == Str(content) &&
            e["date"] == Str(now)
  {
    var d := OpenDialog(None).(title := title, content := content);
    FreshStamped(NewId(roll), d, now);
    CreateThenGet(store, roll, Fresh(d, now));
  }

  /** A new announcement with its id holds exactly id, title, content and
      date. */
  lemma FreshStamped(id: string, d: Dialog, now: string)
    ensures "id" !in Fresh(d, now)
    ensures var e := Stamp(id, Fresh(d, now));
            e.Keys == {"id", "title", "content", "date"} &&
            e["id"] == Str(id) && e["title"] == Str(d.title) && e["content"] == Str(d.content) &&
            e["date"] == Str(now)
  {
    assert "id" !in {"title", "content", "date"};
  }

  /** `handleAnnouncementDelete`: the announcement is gone and every other
      one is kept, in order. */
  function DeleteAnnouncement(store: Table, id: string): (r: Table)
    ensures GetById(r, id).None?
    ensures forall x :: x in store && IdOf(x) != Some(id) ==> x in r
    ensures Seqs.Subseq(r, store)
    ensures |r| == |store| - |Filter(store, ById(id))|
    ensures GetById(store, id).None? ==> r == store
  {
    DeleteThenGet(store, id);
    Delete(store, id)
  }
}
