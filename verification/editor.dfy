/** The note editor's decisions: whether saving skips, creates or updates,
    the Save and Delete buttons that open the confirmation modal, and what
    confirming or dismissing that modal does. The content clean-up (which
    drops empty `<div>` blocks and trims) is a parameter: the model never
    looks inside it. */
module Editor {

  import opened Types
  import Text

  datatype ModalKind = DeleteNoteModal | RenameNoteModal | SaveModal

  datatype ConfirmModal = ConfirmModal(
    isOpen: bool,
    kind: Option<ModalKind>,
    noteId: Option<string>,
    noteName: string)

  const ClosedModal := ConfirmModal(false, None, None, "")

  /** The call into the application state a save makes. */
  datatype SaveCall =
    | NoCall
    | CreateNote(title: string, content: string)
    | UpdateNote(id: string, title: string, content: string)

  /** What `saveNote` does synchronously: the call it makes, the loading
      flag it leaves, and whether it navigates back to the list at once
      (after a create or update it navigates only when the call resolves). */
  datatype SaveResult = SaveResult(call: SaveCall, loading: bool, navigatesNow: bool)

  /** Nothing worth saving: the title is blank and the cleaned content empty. */
  predicate NothingToSave(title: string, content: string, clean: string -> string)
  {
    Text.AllWhitespace(title) && clean(content) == ""
  }

  /** `saveNote`. */
  function SaveNote(routeId: Option<string>, title: string, content: string,
                    clean: string -> string): (r: SaveResult)
    ensures NothingToSave(title, content, clean) <==> r.call.NoCall?
    ensures r.call.NoCall? ==> !r.loading && r.navigatesNow
    ensures !r.call.NoCall? ==> r.loading && !r.navigatesNow
    ensures r.call.CreateNote? <==> !NothingToSave(title, content, clean) && !Truthy(routeId)
    ensures r.call.CreateNote? ==> r.call == CreateNote(title, content)
    ensures r.call.UpdateNote? <==> !NothingToSave(title, content, clean) && Truthy(routeId)
    ensures r.call.UpdateNote? ==> r.call == UpdateNote(routeId.value, title, content)
  {
    Text.TrimEmptyIff(title);
    var cleaned := clean(content);
    if Text.Trim(title) == "" && cleaned == "" then SaveResult(NoCall, false, true)
    else if !Truthy(routeId) then SaveResult(CreateNote(title, content), true, false)
    else SaveResult(UpdateNote(routeId.value, title, content), true, false)
  }

  /** A create sends the content as typed, not the cleaned content. */
  lemma CreateSendsRawContent(title: string, content: string, clean: string -> string)
    requires !NothingToSave(title, content, clean)
    ensures SaveNote(None, title, content, clean).call.content == content
  {
  }

  /** What a button press or a modal answer leads to. */
  datatype EditorRequest = NoRequest | DeleteNote(deleteId: string) | Save(result: SaveResult)

  datatype Outcome = Outcome(modal: ConfirmModal, request: EditorRequest)

  /** The Save button: disabled while a save is pending (`loading`);
      otherwise editing an existing note asks for confirmation and a new
      note is saved at once. */
  function SaveButton(modal: ConfirmModal, loading: bool, routeId: Option<string>, title: string,
                      content: string, clean: string -> string): (r: Outcome)
    ensures loading ==> r == Outcome(modal, NoRequest)
    ensures !loading && Truthy(routeId) ==>
              r.request.NoRequest? && r.modal == ConfirmModal(true, Some(SaveModal), routeId, title)
    ensures !loading && !Truthy(routeId) ==>
              r.modal == modal && r.request == Save(SaveNote(routeId, title, content, clean))
  {
    if loading then Outcome(modal, NoRequest)
    else if Truthy(routeId) then Outcome(ConfirmModal(true, Some(SaveModal), routeId, title), NoRequest)
    else Outcome(modal, Save(SaveNote(routeId, title, content, clean)))
  }

  /** A new note cannot be sent twice: once its save is under way, pressing
      Save again does nothing until the call resolves. */
  lemma NoDoubleCreate(modal: ConfirmModal, title: string, content: string, clean: string -> string)
    requires !NothingToSave(title, content, clean)
    ensures var first := SaveButton(modal, false, None, title, content, clean);
            first.request.Save? && first.request.result.call.CreateNote? &&
            SaveButton(first.modal, first.request.result.loading, None, title, content, clean) ==
              Outcome(modal, NoRequest)
  {
  }

  /** The Delete button (shown only when editing an existing note). */
  function DeleteButton(noteId: string, title: string): (r: ConfirmModal)
    ensures r.isOpen && r.kind == Some(DeleteNoteModal) && r.noteId == Some(noteId) && r.noteName == title
  {
    ConfirmModal(true, Some(DeleteNoteModal), Some(noteId), title)
  }

  /** `handleConfirmAction`: a delete modal with an id deletes that note; a
      save modal with an id saves (with the route's id); the modal is reset
      in every case. */
  function ConfirmAction(modal: ConfirmModal, routeId: Option<string>, title: string, content: string,
                         clean: string -> string): (r: Outcome)
    ensures r.modal == ClosedModal
    ensures r.request.DeleteNote? <==> modal.kind == Some(DeleteNoteModal) && Truthy(modal.noteId)
    ensures r.request.DeleteNote? ==> r.request.deleteId == modal.noteId.value
    ensures r.request.Save? <==> modal.kind == Some(SaveModal) && Truthy(modal.noteId)
    ensures r.request.Save? ==> r.request.result == SaveNote(routeId, title, content, clean)
  {
    if modal.kind == Some(DeleteNoteModal) && Truthy(modal.noteId) then
      Outcome(ClosedModal, DeleteNote(modal.noteId.value))
    else if modal.kind == Some(SaveModal) && Truthy(modal.noteId) then
      Outcome(ClosedModal, Save(SaveNote(routeId, title, content, clean)))
    else Outcome(ClosedModal, NoRequest)
  }

  /** `handleCloseModal`. */
  function CloseModal(modal: ConfirmModal): (r: ConfirmModal)
    ensures !r.isOpen && r.kind.None? && r.noteId.None? && r.noteName == ""
  {
    ClosedModal
  }

  /** Saving an existing note with something in it takes two steps: the
      Save button opens the confirmation, and confirming updates that note
      with the title and content as typed. */
  lemma SaveExistingNeedsConfirmation(modal: ConfirmModal, id: string, title: string, content: string,
                                      clean: string -> string)
    requires id != ""
    requires !NothingToSave(title, content, clean)
    ensures var pressed := SaveButton(modal, false, Some(id), title, content, clean);
            pressed.request.NoRequest? &&
            ConfirmAction(pressed.modal, Some(id), title, content, clean).request ==
              Save(SaveResult(UpdateNote(id, title, content), true, false))
  {
  }

  /** Confirming the Delete button's modal deletes the note it was opened for. */
  lemma DeleteNeedsConfirmation(noteId: string, title: string, routeId: Option<string>, content: string,
                                clean: string -> string)
    requires noteId != ""
    ensures ConfirmAction(DeleteButton(noteId, title), routeId, title, content, clean).request == DeleteNote(noteId)
  {
  }
}
