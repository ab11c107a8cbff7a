/** The application's shared state (profile, categories, notes, loading
    flag) and the reducer every component dispatches its updates through,
    together with the optimistic "exactly one active category" update that
    selecting a category performs before the database is told. */
module AppState {

  import opened Types
  import Lists

  datatype State = State(
    profile: Option<Profile>,
    categories: seq<Category>,
    notes: seq<Note>,
    loading: bool)

  /** The reducer's closed action variant. `Unrecognized` stands for any
      other object an untyped caller might dispatch. */
  datatype Action =
    | SetProfile(newProfile: Option<Profile>)
    | SetCategories(newCategories: seq<Category>)
    | AddCategory(category: Category)
    | UpdateCategory(updatedCategory: Category)
    | DeleteCategory(categoryId: string)
    | SetNotes(newNotes: seq<Note>)
    | AddNote(note: Note)
    | UpdateNote(updatedNote: Note)
    | DeleteNote(noteId: string)
    | SetLoading(newLoading: bool)
    | Unrecognized(tag: string)

  predicate IsCategoryAction(a: Action)
  {
    a.SetCategories? || a.AddCategory? || a.UpdateCategory? || a.DeleteCategory?
  }

  predicate IsNoteAction(a: Action)
  {
    a.SetNotes? || a.AddNote? || a.UpdateNote? || a.DeleteNote?
  }

  function CategoryId(c: Category): string { c.id }

  function NoteId(n: Note): string { n.id }

  /** `after` is `before` with `x` appended: the old list is an unchanged
      prefix and `x` is the one new, last element. */
  ghost predicate Appended<T>(before: seq<T>, after: seq<T>, x: T)
  {
    |after| == |before| + 1 && after[..|before|] == before && after[|before|] == x
  }

  /** `after` has the length and order of `before`; every element whose id
      is `key` became `x`, every other element is untouched. */
  ghost predicate ReplacedById<T>(before: seq<T>, after: seq<T>, idOf: T -> string, key: string, x: T)
  {
    |after| == |before| &&
    forall i :: 0 <= i < |before| ==> after[i] == if idOf(before[i]) == key then x else before[i]
  }

  /** `after` is `before` with exactly the elements whose id is `key` taken
      out: none of those is left, all others are kept, in their order. */
  ghost predicate RemovedById<T>(before: seq<T>, after: seq<T>, idOf: T -> string, key: string)
  {
    (forall i :: 0 <= i < |after| ==> idOf(after[i]) != key) &&
    (forall i :: 0 <= i < |before| && idOf(before[i]) != key ==> before[i] in after) &&
    |after| == |before| - Lists.Count(before, (y: T) => idOf(y) == key) &&
    Lists.SubsequenceOf(after, before)
  }

  /** The state the provider starts from. */
  const Initial := State(None, [], [], true)

  function Replace<T>(xs: seq<T>, idOf: T -> string, x: T): seq<T>
  {
    Lists.ReplaceWhere(xs, (y: T) => idOf(y) == idOf(x), x)
  }

  /** The test `y => idOf(y) !== key` that DELETE filters by. */
  function IdIsNot<T>(idOf: T -> string, key: string): T -> bool
  {
    (y: T) => idOf(y) != key
  }

  function Remove<T>(xs: seq<T>, idOf: T -> string, key: string): seq<T>
  {
    Lists.Filter(xs, IdIsNot(idOf, key))
  }

  lemma {:induction false} CountComplement<T>(xs: seq<T>, idOf: T -> string, key: string)
    ensures Lists.Count(xs, IdIsNot(idOf, key)) ==
            |xs| - Lists.Count(xs, (y: T) => idOf(y) == key)
  {
    if |xs| > 0 {
      CountComplement(xs[1..], idOf, key);
    }
  }

  lemma RemoveRemoves<T>(xs: seq<T>, idOf: T -> string, key: string)
    ensures RemovedById(xs, Remove(xs, idOf, key), idOf, key)
  {
    CountComplement(xs, idOf, key);
  }

  /** The reducer. Each action rewrites only its own field. */
  function Reduce(s: State, a: Action): (r: State)
    ensures !a.SetProfile? ==> r.profile == s.profile
    ensures !IsCategoryAction(a) ==> r.categories == s.categories
    ensures !IsNoteAction(a) ==> r.notes == s.notes
    ensures !a.SetLoading? ==> r.loading == s.loading
    ensures a.SetProfile? ==> r.profile == a.newProfile
    ensures a.SetCategories? ==> r.categories == a.newCategories
    ensures a.AddCategory? ==> Appended(s.categories, r.categories, a.category)
    ensures a.UpdateCategory? ==>
              ReplacedById(s.categories, r.categories, CategoryId, a.updatedCategory.id, a.updatedCategory)
    ensures a.DeleteCategory? ==> RemovedById(s.categories, r.categories, CategoryId, a.categoryId)
    ensures a.SetNotes? ==> r.notes == a.newNotes
    ensures a.AddNote? ==> Appended(s.notes, r.notes, a.note)
    ensures a.UpdateNote? ==> ReplacedById(s.notes, r.notes, NoteId, a.updatedNote.id, a.updatedNote)
    ensures a.DeleteNote? ==> RemovedById(s.notes, r.notes, NoteId, a.noteId)
    ensures a.SetLoading? ==> r.loading == a.newLoading
    ensures a.Unrecognized? ==> r == s
  {
    match a
    case SetProfile(p) => s.(profile := p)
    case SetCategories(cs) => s.(categories := cs)
    case AddCategory(c) => s.(categories := s.categories + [c])
    case UpdateCategory(c) => s.(categories := Replace(s.categories, CategoryId, c))
    case DeleteCategory(id) =>
      RemoveRemoves(s.categories, CategoryId, id);
      s.(categories := Remove(s.categories, CategoryId, id))
    case SetNotes(ns) => s.(notes := ns)
    case AddNote(n) => s.(notes := s.notes + [n])
    case UpdateNote(n) => s.(notes := Replace(s.notes, NoteId, n))
    case DeleteNote(id) =>
      RemoveRemoves(s.notes, NoteId, id);
      s.(notes := Remove(s.notes, NoteId, id))
    case SetLoading(b) => s.(loading := b)
    case Unrecognized(_) => s
  }

  /** The state after dispatching `actions` in order. */
  function ReduceAll(s: State, actions: seq<Action>): State
    decreases |actions|
  {
    if |actions| == 0 then s else ReduceAll(Reduce(s, actions[0]), actions[1..])
  }

  /** Until a SET_LOADING action arrives the provider reports that it is
      loading, whatever else is dispatched. */
  lemma {:induction false} LoadingUntilSetLoading(s: State, actions: seq<Action>)
    requires s.loading
    requires forall i :: 0 <= i < |actions| ==> !actions[i].SetLoading?
    ensures ReduceAll(s, actions).loading
    decreases |actions|
  {
    if |actions| > 0 {
      LoadingUntilSetLoading(Reduce(s, actions[0]), actions[1..]);
    }
  }

  /** A run of actions none of which concerns categories leaves the
      category list exactly as it was. */
  lemma {:induction false} CategoriesFramed(s: State, actions: seq<Action>)
    requires forall i :: 0 <= i < |actions| ==> !IsCategoryAction(actions[i])
    ensures ReduceAll(s, actions).categories == s.categories
    decreases |actions|
  {
    if |actions| > 0 {
      CategoriesFramed(Reduce(s, actions[0]), actions[1..]);
    }
  }

  /** The initial state: no profile, no categories, no notes, loading. */
  lemma InitialIsEmptyAndLoading()
    ensures Initial.profile.None? && |Initial.categories| == 0 && |Initial.notes| == 0 && Initial.loading
  {
  }

  /** Removing the id of an element appended to a list that does not hold
      that id gives the list back. */
  lemma RemoveAppendedNew<T>(xs: seq<T>, idOf: T -> string, x: T)
    requires forall i :: 0 <= i < |xs| ==> idOf(xs[i]) != idOf(x)
    ensures Remove(xs + [x], idOf, idOf(x)) == xs
  {
    var p := IdIsNot(idOf, idOf(x));
    Lists.FilterAppend(xs, x, p);
    Lists.FilterKeepsAll(xs, p);
  }

  /** Adding a category whose id is new and then deleting that id restores
      the state: DELETE_CATEGORY undoes ADD_CATEGORY. */
  lemma AddThenDeleteCategory(s: State, c: Category)
    requires forall i :: 0 <= i < |s.categories| ==> s.categories[i].id != c.id
    ensures Reduce(Reduce(s, AddCategory(c)), DeleteCategory(c.id)) == s
  {
    RemoveAppendedNew(s.categories, CategoryId, c);
  }

  /** The same round trip for notes. */
  lemma AddThenDeleteNote(s: State, n: Note)
    requires forall i :: 0 <= i < |s.notes| ==> s.notes[i].id != n.id
    ensures Reduce(Reduce(s, AddNote(n)), DeleteNote(n.id)) == s
  {
    RemoveAppendedNew(s.notes, NoteId, n);
  }

  /** Dispatching the same UPDATE or DELETE twice has the effect of
      dispatching it once. */
  lemma UpdateAndDeleteIdempotent(s: State, a: Action)
    requires a.UpdateCategory? || a.DeleteCategory? || a.UpdateNote? || a.DeleteNote?
    ensures Reduce(Reduce(s, a), a) == Reduce(s, a)
  {
    match a
    case DeleteCategory(id) =>
      Lists.FilterIdempotent(s.categories, IdIsNot(CategoryId, id));
    case DeleteNote(id) =>
      Lists.FilterIdempotent(s.notes, IdIsNot(NoteId, id));
    case _ =>
  }

  /** The optimistic part of `toggleActiveCategory`: every category keeps
      its place and all its other fields, and is active exactly when its id
      is the selected one. */
  function ActivateOnly(cs: seq<Category>, id: string): (r: seq<Category>)
    ensures |r| == |cs|
    ensures forall i :: 0 <= i < |r| ==> (r[i].isActive <==> cs[i].id == id)
    ensures forall i :: 0 <= i < |r| ==> r[i] == cs[i].(isActive := r[i].isActive)
  {
    seq(|cs|, i requires 0 <= i < |cs| => cs[i].(isActive := cs[i].id == id))
  }

  /** What selecting a category dispatches before the database is updated. */
  function ToggleActiveCategory(s: State, id: string): (r: State)
    ensures |r.categories| == |s.categories|
    ensures forall i :: 0 <= i < |r.categories| ==> (r.categories[i].isActive <==> s.categories[i].id == id)
    ensures forall i :: 0 <= i < |r.categories| ==>
              r.categories[i] == s.categories[i].(isActive := r.categories[i].isActive)
    ensures r.(categories := s.categories) == s
  {
    Reduce(s, SetCategories(ActivateOnly(s.categories, id)))
  }

  /** Selecting an id no category carries deactivates every category. */
  lemma NoneActiveWhenAbsent(s: State, id: string)
    requires forall i :: 0 <= i < |s.categories| ==> s.categories[i].id != id
    ensures forall c :: c in ToggleActiveCategory(s, id).categories ==> !c.isActive
  {
  }

  /** With distinct ids, selecting a present id leaves exactly one active
      category, the one at that id's index, and changes nothing but the
      category list. */
  lemma ExactlyOneActive(s: State, k: nat)
    requires k < |s.categories| && DistinctIds(s.categories)
    ensures var r := ToggleActiveCategory(s, s.categories[k].id);
            r.profile == s.profile && r.notes == s.notes && r.loading == s.loading &&
            r.categories[k].isActive &&
            forall i :: 0 <= i < |r.categories| && i != k ==> !r.categories[i].isActive
  {
  }

  /** Selecting the same category twice is selecting it once. */
  lemma ToggleActiveIdempotent(s: State, id: string)
    ensures ToggleActiveCategory(ToggleActiveCategory(s, id), id) == ToggleActiveCategory(s, id)
  {
  }
}
