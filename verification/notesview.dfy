/** The notes page: which category is active, which notes it lists, and the
    length cap of each note's preview text. */
module NotesView {

  import opened Types
  import Lists
  import Text
  import AppState
  import Sidebar

  function IsActive(c: Category): bool { c.isActive }

  /** `activeCategory`: the first category flagged active, if any. */
  function ActiveCategory(categories: seq<Category>): (r: Option<Category>)
    ensures r.None? <==> forall i :: 0 <= i < |categories| ==> !categories[i].isActive
    ensures r.Some? ==> exists i :: 0 <= i < |categories| && categories[i] == r.value && r.value.isActive &&
                                    forall j :: 0 <= j < i ==> !categories[j].isActive
  {
    Lists.Find(categories, IsActive)
  }

  /** The filter effect: with no active category, or with "General" active,
      every note is listed; otherwise exactly the notes filed under the
      active category, in their order. */
  function VisibleNotes(categories: seq<Category>, notes: seq<Note>): (r: seq<Note>)
    ensures var a := ActiveCategory(categories);
            a.None? || a.value.name == Sidebar.GeneralName ==> r == notes
    ensures var a := ActiveCategory(categories);
            a.Some? && a.value.name != Sidebar.GeneralName ==>
              (forall i :: 0 <= i < |r| ==> r[i].categoryId == a.value.id) &&
              (forall i :: 0 <= i < |notes| && notes[i].categoryId == a.value.id ==> notes[i] in r) &&
              Lists.SubsequenceOf(r, notes) &&
              |r| == Lists.Count(notes, Sidebar.HasCategory(a.value.id))
  {
    var active := ActiveCategory(categories);
    if active.None? || active.value.name == Sidebar.GeneralName then notes
    else Sidebar.CategoryNotes(notes, active.value.id)
  }

  /** The preview shown for a note whose extracted text is `text`. */
  function Preview(text: string): (r: string)
    ensures |r| <= Text.PreviewMaxLength + 3
    ensures |text| <= Text.PreviewMaxLength ==> r == text
    ensures |text| > Text.PreviewMaxLength ==> r == text[..Text.PreviewMaxLength] + "..."
  {
    Text.Truncate(text, Text.PreviewMaxLength)
  }

  /** Adding a category (which the application always creates active)
      while another is active leaves the earlier one on show: both flags
      are set, and the notes page takes the first active category. */
  lemma AddedCategoryNotShown(s: AppState.State, c: Category, k: nat)
    requires k < |s.categories| && s.categories[k].isActive && c.isActive
    ensures var after := AppState.Reduce(s, AppState.AddCategory(c)).categories;
            after[k].isActive && after[|after| - 1] == c &&
            ActiveCategory(after) == ActiveCategory(s.categories) &&
            ActiveCategory(after).Some?
  {
  }

  /** After selecting an id, the active category is the one carrying it. */
  lemma SelectedIsActive(categories: seq<Category>, k: nat)
    requires k < |categories| && DistinctIds(categories)
    ensures ActiveCategory(AppState.ActivateOnly(categories, categories[k].id)) ==
            Some(categories[k].(isActive := true))
  {
    var cs := AppState.ActivateOnly(categories, categories[k].id);
    var a := ActiveCategory(cs);
    assert cs[k].isActive;
    var i :| 0 <= i < |cs| && cs[i] == a.value && a.value.isActive &&
             forall j :: 0 <= j < i ==> !cs[j].isActive;
    assert i == k;
  }

  /** Selecting a category other than "General" lists exactly the notes the
      sidebar counts under that category. */
  lemma SelectingCategoryFilters(categories: seq<Category>, notes: seq<Note>, k: nat)
    requires k < |categories| && DistinctIds(categories)
    requires categories[k].name != Sidebar.GeneralName
    ensures VisibleNotes(AppState.ActivateOnly(categories, categories[k].id), notes) ==
            Sidebar.CategoryNotes(notes, categories[k].id)
  {
    SelectedIsActive(categories, k);
  }

  /** The "All Notes" button lists every note, whether or not a "General"
      category exists (ids are distinct and non-empty, as the database
      issues them). */
  lemma AllNotesShowsEverything(categories: seq<Category>, notes: seq<Note>)
    requires DistinctIds(categories)
    requires forall i :: 0 <= i < |categories| ==> categories[i].id != ""
    ensures VisibleNotes(AppState.ActivateOnly(categories, Sidebar.AllNotesTarget(categories)), notes) == notes
  {
    var g := Sidebar.GeneralCategory(categories);
    if g.Some? {
      var k := Lists.FindIndex(categories, Sidebar.IsGeneral);
      assert categories[k] == g.value;
      SelectedIsActive(categories, k);
    } else {
      var cs := AppState.ActivateOnly(categories, "");
      assert forall i :: 0 <= i < |cs| ==> !cs[i].isActive;
    }
  }
}
