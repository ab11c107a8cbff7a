/** The sidebar's own state: which categories are expanded (and the copy
    saved while a drag is in progress), the add-category input, the
    in-place rename, and the confirmation modal for delete and rename. The
    database calls the sidebar triggers are returned as requests. */
module Sidebar {

  import opened Types
  import Lists
  import Text
  import DragDrop

  /** The category shown as "All Notes" rather than in the sortable list. */
  const GeneralName := "General"

  datatype ModalKind = DeleteModal | RenameModal

  datatype ConfirmModal = ConfirmModal(
    isOpen: bool,
    kind: Option<ModalKind>,
    categoryId: Option<string>,
    categoryName: string,
    newName: Option<string>)

  /** The modal's reset value. */
  const ClosedModal := ConfirmModal(false, None, None, "", None)

  /** The category being renamed in place: its id and name when renaming began. */
  datatype Renaming = Renaming(id: string, name: string)

  datatype SidebarState = SidebarState(
    isAddingCategory: bool,
    renaming: Option<Renaming>,
    renameValue: string,
    newCategoryName: string,
    expanded: set<string>,
    savedExpanded: Option<set<string>>,
    modal: ConfirmModal)

  /** The calls into the application state a sidebar handler makes. */
  datatype Request =
    | NoRequest
    | AddNewCategory(name: string)
    | RenameCategory(renameId: string, newName: string)
    | DeleteCategory(deleteId: string)

  datatype Outcome = Outcome(state: SidebarState, request: Request)

  /** Keys the two inputs react to. */
  datatype Key = Enter | Escape | OtherKey

  /** `sortedCategories`: the categories the sortable list shows. */
  function SortableCategories(categories: seq<Category>): (r: seq<Category>)
    ensures forall i :: 0 <= i < |r| ==> r[i].name != GeneralName
    ensures forall i :: 0 <= i < |categories| && categories[i].name != GeneralName ==> categories[i] in r
    ensures forall i :: 0 <= i < |r| ==> r[i] in categories
    ensures Lists.SubsequenceOf(r, categories)
    ensures |r| == |categories| - Lists.Count(categories, IsGeneral)
  {
    CountGeneralSplit(categories);
    Lists.Filter(categories, NotGeneral)
  }

  function IsGeneral(c: Category): bool { c.name == GeneralName }

  function NotGeneral(c: Category): bool { c.name != GeneralName }

  lemma {:induction false} CountGeneralSplit(cs: seq<Category>)
    ensures Lists.Count(cs, NotGeneral) == |cs| - Lists.Count(cs, IsGeneral)
  {
    if |cs| > 0 {
      CountGeneralSplit(cs[1..]);
    }
  }

  /** `generalCategory`: the first category named "General", if any. */
  function GeneralCategory(categories: seq<Category>): (r: Option<Category>)
    ensures r.None? <==> forall i :: 0 <= i < |categories| ==> categories[i].name != GeneralName
    ensures r.Some? ==> r.value.name == GeneralName && r.value in categories
    ensures r.Some? ==> exists i :: 0 <= i < |categories| && categories[i] == r.value &&
                                    forall j :: 0 <= j < i ==> categories[j].name != GeneralName
  {
    Lists.Find(categories, IsGeneral)
  }

  /** The id the "All Notes" button selects: General's, or "" without one. */
  function AllNotesTarget(categories: seq<Category>): (r: string)
    ensures (forall i :: 0 <= i < |categories| ==> categories[i].name != GeneralName) ==> r == ""
    ensures forall i :: 0 <= i < |categories| && categories[i].name == GeneralName &&
                        (forall j :: 0 <= j < i ==> categories[j].name != GeneralName) ==>
                          r == categories[i].id
  {
    var g := GeneralCategory(categories);
    if g.Some? then g.value.id else ""
  }

  function HasCategory(categoryId: string): Note -> bool
  {
    (n: Note) => n.categoryId == categoryId
  }

  /** `getCategoryNotes`: the notes filed under one category, in order. */
  function CategoryNotes(notes: seq<Note>, categoryId: string): (r: seq<Note>)
    ensures forall i :: 0 <= i < |r| ==> r[i].categoryId == categoryId && r[i] in notes
    ensures forall i :: 0 <= i < |notes| && notes[i].categoryId == categoryId ==> notes[i] in r
    ensures Lists.SubsequenceOf(r, notes)
    ensures |r| == Lists.Count(notes, HasCategory(categoryId))
  {
    Lists.Filter(notes, HasCategory(categoryId))
  }

  /** `toggleOpenCategory`: flips whether one category is expanded. */
  function ToggleOpen(s: SidebarState, categoryId: string): (r: SidebarState)
    ensures categoryId in r.expanded <==> categoryId !in s.expanded
    ensures forall x :: x != categoryId ==> (x in r.expanded <==> x in s.expanded)
    ensures r.(expanded := s.expanded) == s
  {
    s.(expanded := if categoryId in s.expanded then s.expanded - {categoryId}
                   else s.expanded + {categoryId})
  }

  /** Toggling the same category twice restores the expanded set. */
  lemma ToggleTwice(s: SidebarState, categoryId: string)
    ensures ToggleOpen(ToggleOpen(s, categoryId), categoryId) == s
  {
    var r := ToggleOpen(ToggleOpen(s, categoryId), categoryId);
    assert r.expanded == s.expanded;
  }

  /** `handleDragStart`: remember the expanded set, then collapse all. */
  function DragStarted(s: SidebarState): (r: SidebarState)
    ensures r.expanded == {} && r.savedExpanded == Some(s.expanded)
    ensures r.(expanded := s.expanded, savedExpanded := s.savedExpanded) == s
  {
    s.(savedExpanded := Some(s.expanded), expanded := {})
  }

  /** `handleDragStop`: restore the saved set, if one was saved, and forget
      it. A saved empty set still counts as saved. */
  function DragStopped(s: SidebarState): (r: SidebarState)
    ensures s.savedExpanded.None? ==> r == s
    ensures s.savedExpanded.Some? ==>
              r.expanded == s.savedExpanded.value && r.savedExpanded.None? &&
              r.(expanded := s.expanded, savedExpanded := s.savedExpanded) == s
  {
    if s.savedExpanded.Some? then s.(expanded := s.savedExpanded.value, savedExpanded := None) else s
  }

  /** A drag start followed by a drag stop restores exactly the expanded set
      of before the drag and clears the saved slot. */
  lemma DragRestoresExpanded(s: SidebarState)
    ensures DragStopped(DragStarted(s)) == s.(savedExpanded := None)
  {
  }

  /** The sidebar's reaction to the provider's notification hooks. */
  function OnHook(s: SidebarState, h: DragDrop.Hook): (r: SidebarState)
    ensures h.NotifyDragStart? ==> r.expanded == {} && r.savedExpanded == Some(s.expanded)
    ensures h.NotifyDragStop? ==>
              r.savedExpanded.None? &&
              r.expanded == (if s.savedExpanded.Some? then s.savedExpanded.value else s.expanded)
    ensures r.(expanded := s.expanded, savedExpanded := s.savedExpanded) == s
  {
    match h
    case NotifyDragStart => DragStarted(s)
    case NotifyDragStop => DragStopped(s)
  }

  /** Whatever the drag ends with (a drop on another category, a drop on
      itself or nowhere, a cancel), the sidebar comes back to the expansion
      it had before the drag began. */
  lemma GestureRestoresExpanded(s: SidebarState, categories: seq<Category>, draggedId: string,
                                last: DragDrop.DragEvent)
    requires s.savedExpanded.None?
    requires !last.DragStart?
    ensures var started := OnHook(s, DragDrop.OnDragEvent(categories, DragDrop.DragStart(draggedId)).hook);
            OnHook(started, DragDrop.OnDragEvent(categories, last).hook) == s
  {
  }

  /** `handleAddCategory`: a non-empty name (not trimmed) is sent and closes
      the input; the name is cleared either way. */
  function AddCategory(s: SidebarState): (r: Outcome)
    ensures r.state.newCategoryName == ""
    ensures r.request == (if s.newCategoryName != "" then AddNewCategory(s.newCategoryName) else NoRequest)
    ensures s.newCategoryName != "" ==> !r.state.isAddingCategory
    ensures s.newCategoryName == "" ==> r.state.isAddingCategory == s.isAddingCategory
    ensures r.state.(newCategoryName := s.newCategoryName, isAddingCategory := s.isAddingCategory) == s
  {
    if s.newCategoryName != "" then
      Outcome(s.(isAddingCategory := false, newCategoryName := ""), AddNewCategory(s.newCategoryName))
    else
      Outcome(s.(newCategoryName := ""), NoRequest)
  }

  /** `handleKeyPress` on the add-category input. */
  function AddInputKey(s: SidebarState, key: Key): (r: Outcome)
    ensures key == Enter ==> r == AddCategory(s)
    ensures key == Escape ==> r == Outcome(s.(isAddingCategory := false, newCategoryName := ""), NoRequest)
    ensures key == OtherKey ==> r == Outcome(s, NoRequest)
  {
    match key
    case Enter => AddCategory(s)
    case Escape => Outcome(s.(isAddingCategory := false, newCategoryName := ""), NoRequest)
    case OtherKey => Outcome(s, NoRequest)
  }

  /** `handleDeleteCategory`: ask for confirmation. */
  function RequestDelete(s: SidebarState, categoryId: string, categoryName: string): (r: SidebarState)
    ensures r.modal.isOpen && r.modal.kind == Some(DeleteModal)
    ensures r.modal.categoryId == Some(categoryId) && r.modal.categoryName == categoryName
    ensures r.(modal := s.modal) == s
  {
    s.(modal := ConfirmModal(true, Some(DeleteModal), Some(categoryId), categoryName, None))
  }

  /** `handleStartRename`: edit the name in place, starting from the current one. */
  function StartRename(s: SidebarState, categoryId: string, currentName: string): (r: SidebarState)
    ensures r.renaming == Some(Renaming(categoryId, currentName)) && r.renameValue == currentName
    ensures r.(renaming := s.renaming, renameValue := s.renameValue) == s
  {
    s.(renaming := Some(Renaming(categoryId, currentName)), renameValue := currentName)
  }

  /** `handleRename`: while renaming, a value that is not all whitespace
      opens the rename confirmation with the trimmed value as the new name;
      anything else changes nothing. */
  function Rename(s: SidebarState): (r: SidebarState)
    ensures s.renaming.None? || Text.AllWhitespace(s.renameValue) ==> r == s
    ensures s.renaming.Some? && !Text.AllWhitespace(s.renameValue) ==>
              r.modal.isOpen && r.modal.kind == Some(RenameModal) &&
              r.modal.categoryId == Some(s.renaming.value.id) &&
              r.modal.categoryName == s.renaming.value.name &&
              r.modal.newName == Some(Text.Trim(s.renameValue)) &&
              Text.Trim(s.renameValue) != "" &&
              r.(modal := s.modal) == s
  {
    Text.TrimEmptyIff(s.renameValue);
    if s.renaming.Some? && Text.Trim(s.renameValue) != "" then
      s.(modal := ConfirmModal(true, Some(RenameModal), Some(s.renaming.value.id),
                               s.renaming.value.name, Some(Text.Trim(s.renameValue))))
    else s
  }

  /** `handleCancelRename`. */
  function CancelRename(s: SidebarState): (r: SidebarState)
    ensures r.renaming.None? && r.renameValue == ""
    ensures r.(renaming := s.renaming, renameValue := s.renameValue) == s
  {
    s.(renaming := None, renameValue := "")
  }

  /** `handleRenameKeyPress` on the rename input. */
  function RenameInputKey(s: SidebarState, key: Key): (r: SidebarState)
    ensures key == Enter ==> r == Rename(s)
    ensures key == Escape ==> r == CancelRename(s)
    ensures key == OtherKey ==> r == s
  {
    match key
    case Enter => Rename(s)
    case Escape => CancelRename(s)
    case OtherKey => s
  }

  /** `handleConfirmAction`: a delete modal with an id deletes; a rename
      modal with an id and a new name renames and ends the in-place edit;
      the modal is reset in every case. */
  function ConfirmAction(s: SidebarState): (r: Outcome)
    ensures r.state.modal == ClosedModal
    ensures r.request.DeleteCategory? <==> s.modal.kind == Some(DeleteModal) && Truthy(s.modal.categoryId)
    ensures r.request.DeleteCategory? ==> r.request.deleteId == s.modal.categoryId.value
    ensures r.request.RenameCategory? <==>
              s.modal.kind == Some(RenameModal) && Truthy(s.modal.categoryId) && Truthy(s.modal.newName)
    ensures r.request.RenameCategory? ==>
              r.request == RenameCategory(s.modal.categoryId.value, s.modal.newName.value) &&
              r.state == s.(renaming := None, renameValue := "", modal := ClosedModal)
    ensures !r.request.AddNewCategory?
    ensures !r.request.RenameCategory? ==> r.state == s.(modal := ClosedModal)
  {
    var m := s.modal;
    if m.kind == Some(DeleteModal) && Truthy(m.categoryId) then
      Outcome(s.(modal := ClosedModal), DeleteCategory(m.categoryId.value))
    else if m.kind == Some(RenameModal) && Truthy(m.categoryId) && Truthy(m.newName) then
      Outcome(s.(renaming := None, renameValue := "", modal := ClosedModal),
              RenameCategory(m.categoryId.value, m.newName.value))
    else
      Outcome(s.(modal := ClosedModal), NoRequest)
  }

  /** `handleCloseModal`: reset the modal and abandon any in-place rename. */
  function CloseModal(s: SidebarState): (r: SidebarState)
    ensures r.modal == ClosedModal && r.renaming.None? && r.renameValue == ""
    ensures r.(modal := s.modal, renaming := s.renaming, renameValue := s.renameValue) == s
  {
    s.(modal := ClosedModal, renaming := None, renameValue := "")
  }

  /** The whole rename flow: start renaming, type a value that is not all
      whitespace, press Enter, confirm. The request carries the trimmed
      value and the sidebar ends up with no rename in progress, the modal
      closed, and everything else as it was. */
  lemma RenameFlow(s: SidebarState, categoryId: string, currentName: string, typed: string)
    requires categoryId != "" && !Text.AllWhitespace(typed)
    ensures var editing := StartRename(s, categoryId, currentName).(renameValue := typed);
            var r := ConfirmAction(RenameInputKey(editing, Enter));
            r.request == RenameCategory(categoryId, Text.Trim(typed)) &&
            r.state == s.(renaming := None, renameValue := "", modal := ClosedModal)
  {
    Text.TrimEmptyIff(typed);
  }

  /** The delete flow: ask, then confirm; the request names the category. */
  lemma DeleteFlow(s: SidebarState, categoryId: string, categoryName: string)
    requires categoryId != ""
    ensures ConfirmAction(RequestDelete(s, categoryId, categoryName)).request == DeleteCategory(categoryId)
  {
  }
}
