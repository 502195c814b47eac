/**
 * Category endpoints: per-user names unique among active categories, and soft deletion
 * that hides a category from every later lookup without removing it.
 */
module CategoryEndpoints {
  import opened Http
  import opened Records

  datatype CategoryCreate = CategoryCreate(name: string, color: string)

  /** A category update; an absent field is left as it is. */
  datatype CategoryUpdate = CategoryUpdate(name: Option<string>, color: Option<string>)

  const NAME_EXISTS := HttpError(BAD_REQUEST, "Category with this name already exists")
  const CATEGORY_NOT_FOUND := HttpError(NOT_FOUND, "Category not found")
  const DELETED_MESSAGE := "Category deleted successfully"

  /** The lookup the update and delete endpoints start with: the id, owned by the caller, not deleted. */
  predicate OwnsActive(categories: map<Uuid, Category>, user: Uuid, id: Uuid)
  {
    id in categories && categories[id].userId == user && Active(categories[id])
  }

  /** Some active category of `user` is called `name`. */
  predicate NameInUse(categories: map<Uuid, Category>, user: Uuid, name: string)
  {
    exists id :: id in categories && OwnsActive(categories, user, id) && categories[id].name == name
  }

  /** Some active category of `user` other than `except` is called `name`. */
  predicate NameInUseByOther(categories: map<Uuid, Category>, user: Uuid, name: string, except: Uuid)
  {
    exists id :: id in categories && OwnsActive(categories, user, id) && id != except && categories[id].name == name
  }

  /**
   * `create_category`: refuse a name one of the caller's active categories already has;
   * otherwise add an active category under the fresh id the database generates.
   */
  function CreateCategory(db: Db, current: Uuid, req: CategoryCreate, newId: Uuid): (r: Result<(Db, Uuid)>)
    requires newId !in db.categories
    ensures r.Err? <==> NameInUse(db.categories, current, req.name)
    ensures r.Err? ==> r.error == NAME_EXISTS
    ensures r.Ok? ==>
      var db' := r.value.0;
      && r.value.1 == newId
      && db'.categories.Keys == db.categories.Keys + {newId}
      && db'.categories[newId] == Category(current, req.name, req.color, None)
      && (forall id :: id in db.categories ==> db'.categories[id] == db.categories[id])
      && db'.users == db.users && db'.documents == db.documents && db'.files == db.files
    ensures r.Ok? && ActiveNamesUnique(db.categories) ==> ActiveNamesUnique(r.value.0.categories)
  {
    if NameInUse(db.categories, current, req.name) then Err(NAME_EXISTS)
    else Ok((db.(categories := db.categories[newId := Category(current, req.name, req.color, None)]), newId))
  }

  /** `read_categories`: the caller's categories that are not deleted, and no others. */
  function ReadCategories(db: Db, current: Uuid): (r: map<Uuid, Category>)
    ensures forall id :: id in r <==> OwnsActive(db.categories, current, id)
    ensures forall id :: id in r ==> id in db.categories && r[id] == db.categories[id]
  {
    map id | id in db.categories && OwnsActive(db.categories, current, id) :: db.categories[id]
  }

  /**
   * `update_category`: 404 unless the caller owns the category and it is active. A new name
   * different from the current one is refused when another active category of the caller
   * has it; the colour changes only when one is given.
   */
  function UpdateCategory(db: Db, current: Uuid, id: Uuid, upd: CategoryUpdate): (r: Result<(Db, Category)>)
    ensures !OwnsActive(db.categories, current, id) ==> r == Err(CATEGORY_NOT_FOUND)
    ensures OwnsActive(db.categories, current, id) ==>
      var renameClash := upd.name.Some? && upd.name.value != db.categories[id].name
                         && NameInUseByOther(db.categories, current, upd.name.value, id);
      && (r.Err? <==> renameClash)
      && (renameClash ==> r.error == NAME_EXISTS)
    ensures r.Ok? ==>
      var (db', c) := r.value;
      var before := db.categories[id];
      && c.name == (if upd.name.Some? then upd.name.value else before.name)
      && c.color == (if upd.color.Some? then upd.color.value else before.color)
      && c.userId == before.userId && c.deletedAt == before.deletedAt
      && db'.categories.Keys == db.categories.Keys && db'.categories[id] == c
      && (forall other :: other in db.categories && other != id ==> db'.categories[other] == db.categories[other])
      && db'.users == db.users && db'.documents == db.documents && db'.files == db.files
    ensures r.Ok? && ActiveNamesUnique(db.categories) ==> ActiveNamesUnique(r.value.0.categories)
  {
    if !OwnsActive(db.categories, current, id) then Err(CATEGORY_NOT_FOUND)
    else
      var c := db.categories[id];
      if upd.name.Some? && upd.name.value != c.name && NameInUseByOther(db.categories, current, upd.name.value, id) then
        Err(NAME_EXISTS)
      else
        var c := if upd.name.Some? && upd.name.value != c.name then c.(name := upd.name.value) else c;
        var c := if upd.color.Some? then c.(color := upd.color.value) else c;
        Ok((db.(categories := db.categories[id := c]), c))
  }

  /** `delete_category`: 404 unless the caller owns the category and it is active; otherwise stamp it deleted. */
  function DeleteCategory(db: Db, current: Uuid, id: Uuid, now: Timestamp): (r: Result<(Db, string)>)
    ensures r.Ok? <==> OwnsActive(db.categories, current, id)
    ensures r.Err? ==> r.error == CATEGORY_NOT_FOUND
    ensures r.Ok? ==>
      var db' := r.value.0;
      var before := db.categories[id];
      && r.value.1 == DELETED_MESSAGE
      && db'.categories.Keys == db.categories.Keys
      && db'.categories[id] == Category(before.userId, before.name, before.color, Some(now))
      && (forall other :: other in db.categories && other != id ==> db'.categories[other] == db.categories[other])
      && db'.users == db.users && db'.documents == db.documents && db'.files == db.files
    ensures r.Ok? && ActiveNamesUnique(db.categories) ==> ActiveNamesUnique(r.value.0.categories)
  {
    if !OwnsActive(db.categories, current, id) then Err(CATEGORY_NOT_FOUND)
    else Ok((db.(categories := db.categories[id := db.categories[id].(deletedAt := Some(now))]), DELETED_MESSAGE))
  }

  /** A deleted category is gone for its owner: deleting it again, or updating it, is a 404. */
  lemma DeleteTwiceNotFound(db: Db, current: Uuid, id: Uuid, now: Timestamp, later: Timestamp, upd: CategoryUpdate)
    requires DeleteCategory(db, current, id, now).Ok?
    ensures var db' := DeleteCategory(db, current, id, now).value.0;
      && DeleteCategory(db', current, id, later) == Err(CATEGORY_NOT_FOUND)
      && UpdateCategory(db', current, id, upd) == Err(CATEGORY_NOT_FOUND)
  {
  }

  /** A created category is listed for its owner from then on; nobody else's listing changes. */
  lemma CreatedCategoryIsListed(db: Db, current: Uuid, req: CategoryCreate, newId: Uuid, viewer: Uuid)
    requires newId !in db.categories
    requires CreateCategory(db, current, req, newId).Ok?
    ensures var db' := CreateCategory(db, current, req, newId).value.0;
      ReadCategories(db', viewer)
        == if viewer == current then ReadCategories(db, viewer)[newId := Category(current, req.name, req.color, None)]
           else ReadCategories(db, viewer)
  {
  }

  /** A deleted category drops out of its owner's listing and out of no other. */
  lemma DeletedCategoryIsHidden(db: Db, current: Uuid, id: Uuid, now: Timestamp, viewer: Uuid)
    requires DeleteCategory(db, current, id, now).Ok?
    ensures var db' := DeleteCategory(db, current, id, now).value.0;
      ReadCategories(db', viewer) == ReadCategories(db, viewer) - {id}
  {
  }

  /** Under the invariant, soft deletion frees the name: the owner may create a category with it again. */
  lemma DeletedNameCanBeReused(db: Db, current: Uuid, id: Uuid, now: Timestamp, color: string, newId: Uuid)
    requires ActiveNamesUnique(db.categories)
    requires DeleteCategory(db, current, id, now).Ok?
    requires newId !in db.categories
    ensures var db' := DeleteCategory(db, current, id, now).value.0;
      CreateCategory(db', current, CategoryCreate(db.categories[id].name, color), newId).Ok?
  {
  }

  /** Under the invariant, a user's listing never shows two categories with one name. */
  lemma ListedNamesDistinct(db: Db, current: Uuid)
    requires ActiveNamesUnique(db.categories)
    ensures var listed := ReadCategories(db, current);
      forall a, b :: a in listed && b in listed && a != b ==> listed[a].name != listed[b].name
  {
  }
}
