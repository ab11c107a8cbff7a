/** The records the application keeps in memory: a user's profile, the
    categories that group notes, and the notes themselves. Identifiers are
    opaque strings and timestamps are opaque values; nothing in the model
    inspects either beyond comparing them for equality. */
module Types {

  /** Absence of a value (`null` or `undefined` on the JavaScript side). */
  datatype Option<+T> = None | Some(value: T)

  /** `updated_at`: carried along, never interpreted. */
  datatype Timestamp = Timestamp(raw: string)

  datatype Profile = Profile(userId: string, userName: string)

  /** A category row. `position` is its rank in the user's category list. */
  datatype Category = Category(
    id: string,
    userId: string,
    name: string,
    isActive: bool,
    updatedAt: Timestamp,
    position: int)

  /** A note row; `categoryId` names the category it is filed under. */
  datatype Note = Note(
    id: string,
    userId: string,
    categoryId: string,
    title: string,
    content: string,
    updatedAt: Timestamp)

  /** JavaScript truthiness of an optional string: present and non-empty. */
  predicate Truthy(s: Option<string>)
  {
    s.Some? && s.value != ""
  }

  /** No two categories of the list share an id (the database's primary key). */
  predicate DistinctIds(cs: seq<Category>)
  {
    forall i, j :: 0 <= i < |cs| && 0 <= j < |cs| && i != j ==> cs[i].id != cs[j].id
  }
}
