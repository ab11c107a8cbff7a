# Notea core, modelled in Dafny

Notea is a small note-taking web application: a user's notes are filed
under categories, and a sidebar lets the user add, rename, delete and
expand categories. Selecting a category makes it the only active one.
Adding a category also marks the new one active without clearing the
others, and the notes page uses the first active one
(`NotesView.AddedCategoryNotShown`). The sidebar is meant to let the user
reorder categories by drag and drop; as the notes page wires it, a drop
is lost (see "## Findings").
This project models the logic at the heart of the front end as pure
Dafny functions over immutable data, and proves properties about it:

- `Types` — the entities: profile, category, note.
- `Lists` — the JavaScript list operations the state updates are built
  from: `filter`, the conditional `map` replacement, `findIndex`/`find`, and
  the drag-and-drop library's `arrayMove`. `arrayMove` includes its
  behaviour on the index -1.
- `Text` — `String.prototype.trim` with ECMAScript's whitespace set, and
  the note preview's 150-character cap.
- `AppState` — the application reducer over its closed action variant.
  It also covers the optimistic "exactly one active category" update that
  selecting a category performs.
- `DragDrop` — the drag-and-drop provider:
  - the handlers for start, end and cancel;
  - the reorder and renumbering of positions that a drop dispatches;
  - the one-second debounced sink that writes positions back;
  - the effect of a flush on the remote position column.
- `Sidebar` — the sidebar's own state: expanded categories and their
  save and restore around a drag, the add-category input, the in-place
  rename, and the confirmation modal. Each handler returns the call it
  makes into the application state as a `Request` value.
- `NotesView` — the active category, the list of notes it shows, and the
  preview cap.
- `Editor` — the save decision (skip, create or update), the Save and
  Delete buttons, and their confirmation modal.
- `Theme` — parsing the remembered theme, resolving it against the
  operating system's preference, the provider's reactions, and the cycle
  and toggle buttons.

Inputs that come from outside the program are parameters of the model:

- the operating system's colour preference;
- the value remembered in local storage;
- the outcome of each database write;
- the passage of the debounce's quiet period;
- the editor's HTML clean-up function.

A drop naming an id that is not in the list is not ignored. `findIndex`
returns -1 for such an id, and `arrayMove` reads -1 as "the last slot".
So a missing target sends the dragged category to the end, and a missing
dragged id moves the last category onto the target. `DragDrop.DropOntoMissingTarget` and
`DragDrop.DropOfMissingItem` state these behaviours.

## Model

| member | source | states |
|---|---|---|
| Lists.Filter | app/context/AuthContext.tsx:55-59 | the filtered list keeps exactly the elements that pass the test, in their original order, and its length is the number that pass |
| Lists.FilterUnique | app/context/AuthContext.tsx:55-59 | only one list has all three properties (an order-preserving selection, every element passes, as long as the count): the filter's result |
| Lists.FilterKeepsAll | app/context/AuthContext.tsx:71-75 | filtering a list whose every element passes returns the list unchanged |
| Lists.FilterIdempotent | app/context/AuthContext.tsx:71-75 | filtering twice by the same test is filtering once |
| Lists.FilterAppend | app/context/AuthContext.tsx:46-47 | filtering a list with one element appended gives the filtered list, followed by that element exactly when it passes |
| Lists.ReplaceWhere | app/context/AuthContext.tsx:48-54 | same length; every element that matches becomes the replacement; every other element is untouched |
| Lists.ReplaceWhereIdempotent | app/context/AuthContext.tsx:64-70 | replacing with a value that itself matches is idempotent |
| Lists.FindIndex | app/components/DragDropProvider.tsx:88-89 | returns -1 exactly when no element matches; otherwise returns the first matching index |
| Lists.Find | app/routes/Notes.tsx:30 | returns nothing exactly when no element matches; otherwise returns the first matching element |
| Lists.RemoveAt | app/components/DragDropProvider.tsx:90 | the splice that takes one element out: elements before the index keep their place, later ones shift down by one, and the multiset loses exactly that element |
| Lists.InsertAt | app/components/DragDropProvider.tsx:90 | the splice that puts one element in: the element lands at the index, later elements shift up by one, and the multiset gains exactly that element |
| Lists.Move | app/components/DragDropProvider.tsx:90 | a permutation that puts the moved element at the target index; elements between the two indices shift by one towards the vacated slot, and all others stay in place |
| Lists.MoveInverse | app/components/DragDropProvider.tsx:90 | moving back from the target to the source index undoes a move |
| Lists.ArrayMove | app/components/DragDropProvider.tsx:88-90 | on the indices `findIndex` can return, the result is a permutation; an index of -1 means the last slot |
| Text.SkipForward | app/components/SidebarComponent.tsx:117 | the scan that finds the first character that is not whitespace; everything it skips is whitespace |
| Text.SkipBackward | app/components/SidebarComponent.tsx:117 | the scan that finds the last character that is not whitespace; everything it skips is whitespace |
| Text.Trim | app/components/SidebarComponent.tsx:117-123 | the trimmed string is a slice of the input; it neither starts nor ends with whitespace, and everything cut on either side is whitespace |
| Text.TrimEmptyIff | app/routes/Editor.tsx:56 | a string trims to "" exactly when it is all whitespace (both directions) |
| Text.TrimIdempotent | app/components/SidebarComponent.tsx:123 | trimming a trimmed string changes nothing |
| Text.Truncate | app/routes/Notes.tsx:39 | a text longer than the cap is cut to the cap with "..." appended; a text within the cap is shown whole; the result is at most the cap plus 3 characters |
| Text.TruncateIdempotent | app/routes/Notes.tsx:39 | truncating a preview again leaves it unchanged |
| AppState.RemoveRemoves | app/context/AuthContext.tsx:55-59 | a delete leaves no element with the id; every other element is kept, in order; the length drops by the number of elements that had the id |
| AppState.Reduce | app/context/AuthContext.tsx:40-81 | each action changes only its own field; an add appends; an update replaces exactly the elements with the payload's id; a delete removes exactly the elements with the id; an unrecognised action returns the state unchanged |
| AppState.LoadingUntilSetLoading | app/context/AuthContext.tsx:33-38 | the loading flag stays set through any run of actions that contains no SET_LOADING |
| AppState.CategoriesFramed | app/context/AuthContext.tsx:40-81 | a run of actions that does not concern categories leaves the category list unchanged |
| AppState.InitialIsEmptyAndLoading | app/context/AuthContext.tsx:33-38 | the initial state has no profile, no categories and no notes, and is loading |
| AppState.AddThenDeleteCategory | app/context/AuthContext.tsx:46-47 | deleting the id of a category just added (with a new id) restores the state |
| AppState.AddThenDeleteNote | app/context/AuthContext.tsx:62-63 | deleting the id of a note just added (with a new id) restores the state |
| AppState.UpdateAndDeleteIdempotent | app/context/AuthContext.tsx:48-75 | dispatching the same update or delete twice has the effect of dispatching it once |
| AppState.ActivateOnly | app/context/AuthContext.tsx:169-172 | every category keeps its place and all its other fields; a category is active exactly when its id is the selected one |
| AppState.ToggleActiveCategory | app/context/AuthContext.tsx:167-172 | the optimistic dispatch of selecting a category: every category keeps its place and other fields, is active exactly when its id is the selected one, and nothing but the category list changes |
| AppState.NoneActiveWhenAbsent | app/context/AuthContext.tsx:169-172 | selecting an id that no category carries deactivates every category |
| AppState.ExactlyOneActive | app/context/AuthContext.tsx:167-172 | with distinct ids, selecting a present id leaves exactly one active category, and changes only the category list |
| AppState.ToggleActiveIdempotent | app/context/AuthContext.tsx:169-172 | selecting the same category twice is selecting it once |
| DragDrop.Renumber | app/components/DragDropProvider.tsx:91-94 | each category's position becomes its index; every other field is unchanged |
| DragDrop.DensePositionSet | app/components/DragDropProvider.tsx:91-94 | after renumbering, the positions are exactly 0 to n-1: no gaps and no duplicates |
| DragDrop.RenumberDenseIsIdentity | app/components/DragDropProvider.tsx:91-94 | renumbering a list whose positions are already dense changes nothing |
| DragDrop.ArrayMovePermutes | app/components/DragDropProvider.tsx:88-90 | a move permutes the categories once positions are ignored |
| DragDrop.Snapshot | app/components/DragDropProvider.tsx:99-101 | the payload handed to the sink holds each category's id and position, in list order |
| DragDrop.Reorder | app/components/DragDropProvider.tsx:88-94 | what a drop dispatches has the same length as the list, dense positions, and the same categories apart from positions |
| DragDrop.OnDragEvent | app/components/DragDropProvider.tsx:68-104 | start tracks the dragged id and calls the start hook; end and cancel clear the tracked id and call the stop hook; a list is dispatched exactly when the drop has a target other than the dragged item, and the same snapshot is scheduled |
| DragDrop.DropIsMove | app/components/DragDropProvider.tsx:86-97 | with distinct ids, a drop dispatches the renumbered move from the dragged index to the target index |
| DragDrop.DropMovesToTarget | app/components/DragDropProvider.tsx:86-97 | the dragged category lands at the target's index; the categories in between shift by one; all others keep their index; every category keeps its payload and positions are dense |
| DragDrop.DropOntoMissingTarget | app/components/DragDropProvider.tsx:88-90 | a target id that is not in the list sends the dragged category to the end |
| DragDrop.DropOfMissingItem | app/components/DragDropProvider.tsx:88-90 | a dragged id that is not in the list moves the last category onto the target's index |
| DragDrop.DropExample | app/components/DragDropProvider.tsx:86-97 | dropping A onto C in [A, B, C] dispatches [B, C, A] with positions 0, 1, 2 |
| DragDrop.OnDragEventUnwired | app/components/DragDropProvider.tsx:84-97 | as the notes page wires it, the handler still runs both hooks, but a drop dispatches nothing and schedules nothing |
| DragDrop.UnwiredDropIsLost | app/routes/Notes.tsx:64-76 | every genuine reorder is lost as wired, while the intended handler applies it and the applied order differs from the original |
| DragDrop.StepSink | app/components/DragDropProvider.tsx:54-65 | a new schedule replaces the pending snapshot; when the quiet period elapses, the pending snapshot (if any) is flushed and the slot is emptied |
| DragDrop.RunSink | app/components/DragDropProvider.tsx:54-65 | over a run of events: at most one flush per event; the run ends idle after a quiet period and with the last snapshot pending after a schedule |
| DragDrop.RunSinkAppend | app/components/DragDropProvider.tsx:54-65 | running two event sequences back to back composes the final slot and concatenates the flushes |
| DragDrop.BurstKeepsLast | app/components/DragDropProvider.tsx:54-65 | a burst of schedules writes nothing and leaves only the last snapshot pending |
| DragDrop.Coalesce | app/components/DragDropProvider.tsx:54-65 | any burst followed by one quiet period yields exactly one flush, which carries the last snapshot |
| DragDrop.SeparatedBurstsFlushTwice | app/components/DragDropProvider.tsx:54-65 | two bursts separated by a quiet period flush twice, each with its own last snapshot |
| DragDrop.IdleFlushIsSilent | app/components/DragDropProvider.tsx:54-65 | with nothing pending, the quiet period elapsing writes nothing |
| DragDrop.ApplyUpdates | app/components/DragDropProvider.tsx:56-63 | the error flag is set exactly when some update failed, and the set of rows is unchanged |
| DragDrop.FlushWrites | app/components/DragDropProvider.tsx:56-59 | with distinct ids, every row whose update succeeded holds its snapshot position, and every other row is unchanged |
| DragDrop.FlushMirrorsLocalOrder | app/components/DragDropProvider.tsx:91-101 | when every write of a flushed drop succeeds, each row's remote position is its index in the dispatched order |
| Sidebar.SortableCategories | app/components/SidebarComponent.tsx:77 | the sortable list is exactly the categories not named "General", in order |
| Sidebar.GeneralCategory | app/components/SidebarComponent.tsx:76 | returns the FIRST category named "General", and returns nothing exactly when there is none |
| Sidebar.AllNotesTarget | app/components/SidebarComponent.tsx:213 | the id the "All Notes" button selects: the first "General" category's id, or "" when there is none |
| Sidebar.CategoryNotes | app/components/SidebarComponent.tsx:79-81 | exactly the notes filed under the category, in order, with their count |
| Sidebar.ToggleOpen | app/components/SidebarComponent.tsx:83-91 | flips membership of the one category in the expanded set; every other category and every other field is unchanged |
| Sidebar.ToggleTwice | app/components/SidebarComponent.tsx:83-91 | toggling the same category twice restores the state |
| Sidebar.DragStarted | app/components/SidebarComponent.tsx:181-186 | saves the expanded set and collapses everything; nothing else changes |
| Sidebar.DragStopped | app/components/SidebarComponent.tsx:189-194 | restores the saved set and forgets it; if nothing was saved, the state is unchanged |
| Sidebar.DragRestoresExpanded | app/components/SidebarComponent.tsx:181-194 | a drag start followed by a drag stop restores the expanded set of before the drag |
| Sidebar.OnHook | app/components/SidebarComponent.tsx:262-263 | the start hook saves the expanded set and collapses everything; the stop hook restores a saved set and clears the slot; nothing else changes |
| Sidebar.GestureRestoresExpanded | app/components/DragDropProvider.tsx:68-85 | however a drag ends (drop elsewhere, drop in place, cancel), the sidebar returns to its pre-drag state |
| Sidebar.AddCategory | app/components/SidebarComponent.tsx:93-100 | a non-empty name (not trimmed) is requested and closes the input; the name is cleared either way; nothing else changes |
| Sidebar.AddInputKey | app/components/SidebarComponent.tsx:143-150 | Enter adds; Escape closes the input and clears the name; other keys do nothing |
| Sidebar.RequestDelete | app/components/SidebarComponent.tsx:102-109 | opens the delete confirmation for the category; nothing else changes |
| Sidebar.StartRename | app/components/SidebarComponent.tsx:111-114 | begins an in-place rename, starting from the current name; nothing else changes |
| Sidebar.Rename | app/components/SidebarComponent.tsx:116-126 | with a rename in progress and a value that is not all whitespace, opens the rename confirmation with the category's id and name and the trimmed value; otherwise nothing changes |
| Sidebar.CancelRename | app/components/SidebarComponent.tsx:128-131 | ends the in-place rename and clears the value; nothing else changes |
| Sidebar.RenameInputKey | app/components/SidebarComponent.tsx:133-141 | Enter renames; Escape cancels; other keys do nothing |
| Sidebar.ConfirmAction | app/components/SidebarComponent.tsx:152-167 | deletes exactly when a delete modal carries an id; renames exactly when a rename modal carries an id and a new name, and then ends the in-place rename; the modal is reset in every case, and no other field changes |
| Sidebar.CloseModal | app/components/SidebarComponent.tsx:169-178 | resets the modal and abandons any rename; nothing else changes |
| Sidebar.RenameFlow | app/components/SidebarComponent.tsx:111-167 | start, type, Enter, confirm: requests the trimmed name and leaves the modal closed, no rename in progress, and every other field as it was |
| Sidebar.DeleteFlow | app/components/SidebarComponent.tsx:102-158 | asking to delete and then confirming requests deletion of that category |
| NotesView.ActiveCategory | app/routes/Notes.tsx:30 | returns the first active category; returns nothing exactly when none is active |
| NotesView.AddedCategoryNotShown | app/context/AuthContext.tsx:156-164 | a category is created active and appended without clearing other flags, so with an earlier active category both are active and the notes page keeps showing the earlier one |
| NotesView.VisibleNotes | app/routes/Notes.tsx:55-61 | with no active category, or "General" active, shows every note; otherwise exactly that category's notes, in order, as many as there are |
| NotesView.Preview | app/routes/Notes.tsx:33-40 | the preview is at most 153 characters: a text within 150 is shown whole; a longer one is cut to 150 with "..." appended |
| NotesView.SelectedIsActive | app/context/AuthContext.tsx:169-172 | after selecting a category, the active category is that category |
| NotesView.SelectingCategoryFilters | app/routes/Notes.tsx:55-61 | selecting a category other than "General" lists exactly the notes the sidebar counts under it |
| NotesView.AllNotesShowsEverything | app/components/SidebarComponent.tsx:213 | the "All Notes" button lists every note, whether or not a "General" category exists |
| Editor.SaveNote | app/routes/Editor.tsx:53-88 | skips exactly when the title is blank and the cleaned content is empty (and then navigates at once with loading off); otherwise creates without a route id, or updates the route's note, with the title and content as typed, and leaves loading on |
| Editor.CreateSendsRawContent | app/routes/Editor.tsx:55-63 | a create sends the content as typed, not the cleaned content |
| Editor.SaveButton | app/routes/Editor.tsx:154-156 | does nothing while a save is pending; otherwise, for an existing note, opens the save confirmation, and for a new note saves at once |
| Editor.NoDoubleCreate | app/routes/Editor.tsx:53-63 | once a new note's save is under way, pressing Save again does nothing, so a note cannot be created twice |
| Editor.DeleteButton | app/routes/Editor.tsx:90-97 | opens the delete confirmation for the note |
| Editor.ConfirmAction | app/routes/Editor.tsx:108-121 | deletes exactly when a delete modal carries an id; saves exactly when a save modal carries an id; the modal is reset in every case |
| Editor.CloseModal | app/routes/Editor.tsx:123-130 | the modal is closed and empty |
| Editor.SaveExistingNeedsConfirmation | app/routes/Editor.tsx:99-121 | saving an existing note takes the button and then the confirmation, and updates that note |
| Editor.DeleteNeedsConfirmation | app/routes/Editor.tsx:90-121 | confirming the Delete button's modal deletes the note it was opened for |
| Theme.Parse | app/context/ThemeContext.tsx:39-42 | parses exactly the three theme names, and parsing then naming gives the input back |
| Theme.ParseName | app/context/ThemeContext.tsx:39-42 | naming a choice and parsing the name gives the choice back |
| Theme.InitialTheme | app/context/ThemeContext.tsx:36-46 | starts from the remembered choice when it is a valid name, otherwise from the default |
| Theme.Resolve | app/context/ThemeContext.tsx:52-57 | light and dark resolve to themselves; "system" follows the operating system |
| Theme.ConcreteIgnoresSystem | app/context/ThemeContext.tsx:52-57 | the resolution of light or dark does not depend on the operating system |
| Theme.IndexOf | app/context/ThemeContext.tsx:120-121 | the position of a choice in the cycle order |
| Theme.Cycle | app/context/ThemeContext.tsx:119-124 | light goes to dark, dark to system, system to light |
| Theme.CycleThrice | app/context/ThemeContext.tsx:119-124 | three presses of the cycle button return to the start, and no fewer do |
| Theme.Step | app/context/ThemeContext.tsx:36-93 | mounting adopts the initial choice; setting a choice changes it; an operating-system change is heard only while "system" is chosen |
| Theme.Unmounted | app/context/ThemeContext.tsx:31-33 | before mounting: the default choice, light applied, not mounted, no listener attached, and trivially consistent |
| Theme.StepKeepsConsistent | app/context/ThemeContext.tsx:49-89 | after every event, once mounted, what is applied matches the choice under the current preference, and the choice is remembered |
| Theme.ChoiceSurvivesReload | app/context/ThemeContext.tsx:36-68 | after reloading, the choice made before is restored, whatever the default |
| Theme.Toggle | app/features/ThemeToggle.tsx:7-9 | light goes to dark, and anything else goes to light; never "system" |
| Theme.ToggleTwice | app/features/ThemeToggle.tsx:7-9 | two toggles from light or dark come back to it |
| Theme.ToggleFlips | app/features/ThemeToggle.tsx:7-9 | every toggle flips what is applied |

## Left out

- Database, authentication and navigation calls are left out, because
  they are I/O. This covers the profile fetch, sign-in and sign-out, the
  category and note inserts, updates and deletes, and the router. The
  model returns each such call as a request value, or covers its local
  effect through the reducer action it dispatches.
- The database side of `toggleActiveCategory` is left out: two
  background updates, of which the first's failure is logged and the
  second's result is ignored. Only the optimistic local update is
  modelled.
- `createNote`'s lookup of the active category and its title fallback
  (`title.trim() || null`) are left out. They only shape the payload of a
  database insert, and the note the application keeps is the row the
  database returns.
- `changeNoteCategory` is left out: it is a database update followed by a
  reducer UPDATE_NOTE, which `AppState.Reduce` covers.
- The editor's HTML clean-up (a regular-expression replace, then a trim)
  is a parameter `clean` of `Editor.SaveNote`. The model does not look
  inside it.
- `getPreview`'s HTML parsing (DOMParser and `querySelectorAll`) is left
  out. Only the final cut to 150 characters is modelled.
- Text.Truncate: counts Unicode scalar values, whereas JavaScript's
  `length` and `substring` count UTF-16 code units. A text with
  characters outside the Basic Multilingual Plane is cut at a different
  place.
- Lists.ArrayMove: for an empty list it returns the empty list, whereas
  the library would splice `undefined` into the copy. A drop cannot reach
  an empty list, because the dragged category is in it.
- The debounce is modelled as a slot of one pending snapshot. The model
  has an abstract "quiet period elapsed" event in place of clocks and
  timers.
- The debounce is never cancelled when the provider unmounts, so a
  pending write still fires. The model has no unmount event.
- Rendering, responsive resizing, icons, the drag overlay, dnd-kit's
  pointer sensor, and the `isMobile` flag are left out.
  They affect only presentation.
- The server-side case where `window` is undefined is left out. There the
  system preference reads as light; the preference is an input of the
  model in every case.
- The sidebar's category buttons call `setIsSidebarOpen`, which the notes
  page never passes. The resulting error follows the optimistic update,
  so it is left out.
- What happens after a create or update that the database rejects is
  left out, because it depends on the outcome of the asynchronous call.
  `createNote` and `updateNote` swallow a database error and resolve,
  so the editor still turns loading off and returns to the list; after a
  create it also clears the title and content, and the typed note is
  dropped without notice. Only when the call throws does the loading
  flag stay set.

## Findings

| source | as written | input that shows it | evidently intended | confidence | as-written member | corrected member |
|---|---|---|---|---|---|---|
| app/routes/Notes.tsx:64-76 | the notes page builds the sidebar's properties without `dispatch`, and the application context exposes none. The drag-and-drop provider's `dispatch(...)` at app/components/DragDropProvider.tsx:97 therefore calls `undefined` and throws. | a drop of category A onto category B in [A, B] | the drop dispatches SET_CATEGORIES with the renumbered order and schedules the position write | medium, not executed | DragDrop.UnwiredDropIsLost | DragDrop.DropMovesToTarget |
