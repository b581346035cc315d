/** Book categories: creating, editing and deleting one (administrators
    only; the check is the decorator's). */
module Categories {
  import opened Values
  import opened Models
  import opened Errors
  import opened Database
  import opened Inventory

  /** The database's unique constraint on category names. */
  predicate NamesDistinct(cs: map<nat, Category>) {
    forall j, k :: j in cs && k in cs && j != k ==> cs[j].name != cs[k].name
  }

  predicate NameInUse(cs: map<nat, Category>, name: string) {
    exists k :: k in cs && cs[k].name == name
  }

  lemma CategoriesKeyedWrite(m: map<nat, Category>, next: nat, k: nat, c: Category)
    requires CategoriesKeyed(m, next) && c.id == k && k < next
    ensures CategoriesKeyed(m[k := c], next)
  {
  }

  // ---- create_category ----

  /** A category name must be non-empty and not in use. */
  function CreateCategoryRefusal(cs: map<nat, Category>, name: Option<string>): (e: Option<Error>)
    ensures e.None? <==> TruthyStr(name) && !NameInUse(cs, name.value)
    ensures !TruthyStr(name) ==> e == Some(MissingField("name"))
  {
    if !TruthyStr(name) then Some(MissingField("name"))
    else if NameInUse(cs, name.value) then Some(CategoryNameTaken)
    else None
  }

  /** Creates a category; an absent description is stored as the empty
      text, and `parentId` is stored as sent, unchecked. */
  method CreateCategory(db: Db, name: Option<string>, description: Option<Option<string>>, parentId: Option<nat>)
    returns (res: Result<Category>)
    requires db.Valid()
    modifies db`categories, db`nextCategoryId
    ensures db.Valid()
    ensures res.Err? <==> CreateCategoryRefusal(old(db.categories), name).Some?
    ensures res.Err? ==>
      && res.error == CreateCategoryRefusal(old(db.categories), name).value
      && db.categories == old(db.categories) && db.nextCategoryId == old(db.nextCategoryId)
    ensures res.Ok? ==>
      && res.value == Category(old(db.nextCategoryId), name.value, GetOr(description, Some("")), parentId)
      && res.value.id !in old(db.categories)
      && db.categories == old(db.categories)[res.value.id := res.value]
      && db.nextCategoryId == old(db.nextCategoryId) + 1
    ensures NamesDistinct(old(db.categories)) ==> NamesDistinct(db.categories)
  {
    var err := CreateCategoryRefusal(db.categories, name);
    if err.Some? {
      return Err(err.value);
    }
    var c := Category(db.nextCategoryId, name.value, GetOr(description, Some("")), parentId);
    CategoriesKeyedWrite(db.categories, db.nextCategoryId + 1, c.id, c);
    db.categories := db.categories[c.id := c];
    db.nextCategoryId := db.nextCategoryId + 1;
    return Ok(c);
  }

  // ---- update_category ----

  /** Another category than `id` holds `name`. */
  predicate NameHeldByOther(cs: map<nat, Category>, id: nat, name: string) {
    exists k :: k in cs && k != id && cs[k].name == name
  }

  /** A rename is refused only when another category already holds the new
      name; renaming to the current name is no rename at all. */
  function UpdateCategoryRefusal(cs: map<nat, Category>, id: nat, name: Option<string>): (e: Option<Error>)
    ensures e.None? <==> id in cs && !(name.Some? && name.value != cs[id].name && NameHeldByOther(cs, id, name.value))
  {
    if id !in cs then Some(NotFound)
    else if name.Some? && name.value != cs[id].name && NameHeldByOther(cs, id, name.value) then Some(CategoryNameTaken)
    else None
  }

  /** The category after an accepted edit: each present field replaces the
      old value, an absent one keeps it. */
  function EditedCategory(c: Category, name: Option<string>, description: Option<Option<string>>, parentId: Option<Option<nat>>): (n: Category)
    ensures n.id == c.id
    ensures n.name == GetOr(name, c.name)
    ensures n.description == GetOr(description, c.description)
    ensures n.parentId == GetOr(parentId, c.parentId)
  {
    Category(c.id, GetOr(name, c.name), GetOr(description, c.description), GetOr(parentId, c.parentId))
  }

  /** Edits category `id`. */
  method UpdateCategory(db: Db, id: nat, name: Option<string>, description: Option<Option<string>>, parentId: Option<Option<nat>>)
    returns (res: Result<Category>)
    requires db.Valid()
    modifies db`categories
    ensures db.Valid()
    ensures res.Err? <==> UpdateCategoryRefusal(old(db.categories), id, name).Some?
    ensures res.Err? ==>
      && res.error == UpdateCategoryRefusal(old(db.categories), id, name).value
      && db.categories == old(db.categories)
    ensures res.Ok? ==>
      && res.value == EditedCategory(old(db.categories)[id], name, description, parentId)
      && db.categories == old(db.categories)[id := res.value]
    ensures NamesDistinct(old(db.categories)) ==> NamesDistinct(db.categories)
  {
    var err := UpdateCategoryRefusal(db.categories, id, name);
    if err.Some? {
      return Err(err.value);
    }
    var c := db.categories[id];
    var n := EditedCategory(c, name, description, parentId);
    if NamesDistinct(db.categories) {
      RenameKeepsDistinct(db.categories, id, n);
    }
    CategoriesKeyedWrite(db.categories, db.nextCategoryId, id, n);
    db.categories := db.categories[id := n];
    return Ok(n);
  }

  lemma RenameKeepsDistinct(cs: map<nat, Category>, id: nat, n: Category)
    requires NamesDistinct(cs) && id in cs
    requires n.name == cs[id].name || !NameHeldByOther(cs, id, n.name)
    ensures NamesDistinct(cs[id := n])
  {
    var after := cs[id := n];
    forall j, k | j in after && k in after && j != k ensures after[j].name != after[k].name {
      if j == id {
        assert after[k] == cs[k];
      } else if k == id {
        assert after[j] == cs[j];
      }
    }
  }

  /** Any parent id is accepted, the category's own id and an id no
      category has included. */
  lemma AnyParentAccepted(cs: map<nat, Category>, id: nat, parent: nat)
    requires id in cs
    ensures UpdateCategoryRefusal(cs, id, None).None?
    ensures EditedCategory(cs[id], None, None, Some(Some(parent))).parentId == Some(parent)
  {
  }

  // ---- delete_category ----

  function ChildOf(id: nat): Category -> bool {
    (c: Category) => c.parentId == Some(id)
  }

  function FiledUnder(id: nat): Book -> bool {
    (b: Book) => b.categoryId == Some(id)
  }

  /** The checks of `delete_category` as written: the book check calls
      `count()` on the plain list the `books` back-reference yields, which
      raises, so every deletion that gets past the subcategory check fails. */
  function DeleteCategoryRefusalAsWritten(cs: map<nat, Category>, books: map<nat, Book>, id: nat): (e: Option<Error>)
    ensures e.Some?
  {
    if id !in cs then Some(NotFound)
    else if Count(cs, ChildOf(id)) > 0 then Some(HasSubcategories)
    else Some(InternalError)
  }

  /** No category can ever be deleted as written, even one nothing refers to. */
  lemma NothingDeletableAsWritten(cs: map<nat, Category>, books: map<nat, Book>, id: nat)
    requires id in cs && Count(cs, ChildOf(id)) == 0 && Count(books, FiledUnder(id)) == 0
    ensures DeleteCategoryRefusalAsWritten(cs, books, id) == Some(InternalError)
  {
  }

  /** The intended checks: a category with subcategories or with books filed
      under it cannot be deleted. */
  function DeleteCategoryRefusal(cs: map<nat, Category>, books: map<nat, Book>, id: nat): (e: Option<Error>)
    ensures e.None? <==> id in cs && Count(cs, ChildOf(id)) == 0 && Count(books, FiledUnder(id)) == 0
  {
    if id !in cs then Some(NotFound)
    else if Count(cs, ChildOf(id)) > 0 then Some(HasSubcategories)
    else if Count(books, FiledUnder(id)) > 0 then Some(HasBooks)
    else None
  }

  /** The intended checks refuse exactly when a subcategory or a book refers
      to the category, and agree with the code as written on every refusal
      that comes before the book check. */
  lemma DeleteCategoryIff(cs: map<nat, Category>, books: map<nat, Book>, id: nat)
    requires id in cs
    ensures DeleteCategoryRefusal(cs, books, id).None?
        <==> (forall k :: k in cs ==> cs[k].parentId != Some(id)) && (forall k :: k in books ==> books[k].categoryId != Some(id))
    ensures Count(cs, ChildOf(id)) > 0 ==> DeleteCategoryRefusal(cs, books, id) == DeleteCategoryRefusalAsWritten(cs, books, id)
  {
    CountZeroIff(cs, ChildOf(id));
    CountZeroIff(books, FiledUnder(id));
  }

  /** Deletes category `id` under the intended checks. */
  method DeleteCategory(db: Db, id: nat) returns (res: Result<Category>)
    requires db.Valid()
    modifies db`categories
    ensures db.Valid()
    ensures res.Err? <==> DeleteCategoryRefusal(old(db.categories), db.books, id).Some?
    ensures res.Err? ==>
      && res.error == DeleteCategoryRefusal(old(db.categories), db.books, id).value
      && db.categories == old(db.categories)
    ensures res.Ok? ==> res.value == old(db.categories)[id] && db.categories == old(db.categories) - {id}
  {
    var err := DeleteCategoryRefusal(db.categories, db.books, id);
    if err.Some? {
      return Err(err.value);
    }
    var c := db.categories[id];
    db.categories := db.categories - {id};
    return Ok(c);
  }
}
