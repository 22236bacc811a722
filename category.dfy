/** The category router: every procedure first checks that the caller owns
    the restaurant, and a parent category must belong to the same restaurant. */
module CategoryRouter {
  import opened Common
  import opened Store

  // ---------------------------------------------------------------------
  // Queries

  /** `category.findMany({ where: { restaurantId } })`, in table order. */
  function CategoriesOf(categories: seq<Category>, restaurantId: Id): (r: seq<Category>)
    ensures forall c :: c in r <==> c in categories && c.restaurantId == restaurantId
    ensures |r| <= |categories|
  {
    if categories == [] then []
    else if categories[0].restaurantId == restaurantId then [categories[0]] + CategoriesOf(categories[1..], restaurantId)
    else CategoriesOf(categories[1..], restaurantId)
  }

  /** Selecting one restaurant's categories keeps them in `createdAt` order. */
  lemma {:induction false} CategoriesOfOldestFirst(categories: seq<Category>, restaurantId: Id)
    requires CategoriesOldestFirst(categories)
    ensures CategoriesOldestFirst(CategoriesOf(categories, restaurantId))
  {
    if categories != [] {
      assert CategoriesOldestFirst(categories[1..]);
      CategoriesOfOldestFirst(categories[1..], restaurantId);
      var rest := CategoriesOf(categories[1..], restaurantId);
      if categories[0].restaurantId == restaurantId {
        forall j | 0 <= j < |rest| ensures categories[0].createdAt <= rest[j].createdAt {
          assert rest[j] in categories[1..];
        }
      }
    }
  }

  /** Selecting by restaurant never repeats an id when the table has unique ids. */
  lemma {:induction false} CategoriesOfUnique(categories: seq<Category>, restaurantId: Id)
    requires UniqueCategoryIds(categories)
    ensures UniqueCategoryIds(CategoriesOf(categories, restaurantId))
  {
    if categories != [] {
      assert UniqueCategoryIds(categories[1..]);
      CategoriesOfUnique(categories[1..], restaurantId);
      var rest := CategoriesOf(categories[1..], restaurantId);
      if categories[0].restaurantId == restaurantId {
        forall j | 0 <= j < |rest| ensures categories[0].id != rest[j].id {
          assert rest[j] in categories[1..];
        }
      }
    }
  }

  /** `category.getByRestaurant`: ownership first, then that restaurant's categories, oldest first. */
  function GetByRestaurant(restaurants: map<Id, Restaurant>, categories: seq<Category>, caller: Id, restaurantId: Id)
    : (r: Result<seq<Category>, Error>)
    ensures r.Failure? <==> !Owns(restaurants, restaurantId, caller)
    ensures r.Failure? ==> r.error == RestaurantNotFound
    ensures r.Success? ==> forall c :: c in r.value <==> c in categories && c.restaurantId == restaurantId
    ensures r.Success? && CategoriesOldestFirst(categories) ==> CategoriesOldestFirst(r.value)
    ensures r.Success? && UniqueCategoryIds(categories) ==> UniqueCategoryIds(r.value)
  {
    if !Owns(restaurants, restaurantId, caller) then
      Failure(RestaurantNotFound)
    else
      var found := CategoriesOf(categories, restaurantId);
      assert CategoriesOldestFirst(categories) ==> CategoriesOldestFirst(found) by {
        if CategoriesOldestFirst(categories) { CategoriesOfOldestFirst(categories, restaurantId); }
      }
      assert UniqueCategoryIds(categories) ==> UniqueCategoryIds(found) by {
        if UniqueCategoryIds(categories) { CategoriesOfUnique(categories, restaurantId); }
      }
      Success(found)
  }

  /** The guard shared by `update` and `delete`: NOT_FOUND when no category has
      the id, then `denied` (a FORBIDDEN error) when its restaurant belongs to
      someone else; otherwise the position of the category. */
  function CategoryAccess(restaurants: map<Id, Restaurant>, categories: seq<Category>, caller: Id, id: Id, denied: Error)
    : (r: Result<nat, Error>)
    requires denied.Code() == Forbidden
    ensures r == Failure(CategoryNotFound) <==> !CategoryIdInUse(categories, id)
    ensures FindCategory(categories, id).Some? ==>
      var c := categories[FindCategory(categories, id).value];
      if Owns(restaurants, c.restaurantId, caller) then r == Success(FindCategory(categories, id).value)
      else r == Failure(denied)
    ensures r.Success? ==> r.value < |categories| && categories[r.value].id == id
  {
    var found := FindCategory(categories, id);
    if found.None? then Failure(CategoryNotFound)
    else if !Owns(restaurants, categories[found.value].restaurantId, caller) then Failure(denied)
    else Success(found.value)
  }

  // ---------------------------------------------------------------------
  // Table updates

  /** The category after `update`: `name` changes when a non-empty one is given;
      `parentId` changes whenever it is not `undefined`, and `null` makes it top level. */
  function ApplyUpdate(c: Category, name: Option<string>, parentId: Patch<Id>): (r: Category)
    ensures r.id == c.id && r.restaurantId == c.restaurantId && r.createdAt == c.createdAt
    ensures r.name == if Truthy(name) then name.value else c.name
    ensures parentId.Omitted? ==> r.parentId == c.parentId
    ensures parentId.Null? ==> r.parentId.None?
    ensures parentId.Value? ==> r.parentId == Some(parentId.v)
  {
    var c' := if Truthy(name) then c.(name := name.value) else c;
    match parentId
    case Omitted => c'
    case Null => c'.(parentId := None)
    case Value(p) => c'.(parentId := Some(p))
  }

  /** Deleting the row found for `id` removes exactly that category. */
  lemma RemoveCategoryExactly(categories: seq<Category>, id: Id, c: Category)
    requires UniqueCategoryIds(categories)
    requires FindCategory(categories, id).Some?
    ensures var rest := RemoveAt(categories, FindCategory(categories, id).value);
      (c in rest <==> c in categories && c.id != id) && !CategoryIdInUse(rest, id)
  {
  }

  lemma RemoveCategoryKeepsValid(db: Db, i: nat)
    requires db.Valid() && i < |db.categories|
    ensures var rest := RemoveAt(db.categories, i);
      && UniqueCategoryIds(rest)
      && (forall k :: 0 <= k < |rest| ==> rest[k].restaurantId in db.restaurants)
      && CategoriesChronological(rest, db.now)
  {
  }

  // ---------------------------------------------------------------------
  // Procedures

  /** `category.create`: ownership, then (for a non-empty `parentId`) the parent's restaurant. */
  method Create(db: Db, caller: Id, restaurantId: Id, name: string, parentId: Option<Id>, newId: Id)
    returns (r: Result<Category, Error>)
    requires db.Valid()
    requires !CategoryIdInUse(db.categories, newId)
    modifies db`categories
    ensures db.Valid()
    ensures r == Failure(RestaurantNotFound) <==> !Owns(db.restaurants, restaurantId, caller)
    ensures r == Failure(ParentNotFound) <==>
      Owns(db.restaurants, restaurantId, caller) && Truthy(parentId)
      && !IsCategoryOf(old(db.categories), parentId.value, restaurantId)
    ensures r.Success? <==>
      Owns(db.restaurants, restaurantId, caller)
      && (Truthy(parentId) ==> IsCategoryOf(old(db.categories), parentId.value, restaurantId))
    ensures r.Failure? ==> db.categories == old(db.categories)
    ensures r.Success? ==>
      && r.value == Category(newId, name, restaurantId, parentId, db.now)
      && db.categories == old(db.categories) + [r.value]
  {
    if !Owns(db.restaurants, restaurantId, caller) {
      return Failure(RestaurantNotFound);
    }
    if Truthy(parentId) && !IsCategoryOf(db.categories, parentId.value, restaurantId) {
      return Failure(ParentNotFound);
    }
    var category := Category(newId, name, restaurantId, parentId, db.now);
    db.categories := db.categories + [category];
    r := Success(category);
  }

  /** `category.update`: existence, then ownership (FORBIDDEN), then the parent, then the patch. */
  method Update(db: Db, caller: Id, id: Id, name: Option<string>, parentId: Patch<Id>)
    returns (r: Result<Category, Error>)
    requires db.Valid()
    modifies db`categories
    ensures db.Valid()
    ensures var access := CategoryAccess(db.restaurants, old(db.categories), caller, id, CategoryUpdateDenied);
      if access.Failure? then
        r == Failure(access.error)
      else
        var c := old(db.categories)[access.value];
        if parentId.Value? && parentId.v != "" && !IsCategoryOf(old(db.categories), parentId.v, c.restaurantId) then
          r == Failure(ParentNotFound)
        else
          r == Success(ApplyUpdate(c, name, parentId)) && db.categories == old(db.categories)[access.value := r.value]
    ensures r.Failure? ==> db.categories == old(db.categories)
  {
    var access := CategoryAccess(db.restaurants, db.categories, caller, id, CategoryUpdateDenied);
    if access.Failure? {
      return Failure(access.error);
    }
    var c := db.categories[access.value];
    if parentId.Value? && parentId.v != "" && !IsCategoryOf(db.categories, parentId.v, c.restaurantId) {
      return Failure(ParentNotFound);
    }
    var updated := ApplyUpdate(c, name, parentId);
    db.categories := db.categories[access.value := updated];
    r := Success(updated);
  }

  /** `category.delete`: existence, then ownership (FORBIDDEN), then the row goes. */
  method Delete(db: Db, caller: Id, id: Id) returns (r: Result<bool, Error>)
    requires db.Valid()
    modifies db`categories
    ensures db.Valid()
    ensures var access := CategoryAccess(db.restaurants, old(db.categories), caller, id, CategoryDeleteDenied);
      if access.Failure? then
        r == Failure(access.error) && db.categories == old(db.categories)
      else
        r == Success(true) && db.categories == RemoveAt(old(db.categories), access.value)
  {
    var access := CategoryAccess(db.restaurants, db.categories, caller, id, CategoryDeleteDenied);
    if access.Failure? {
      return Failure(access.error);
    }
    RemoveCategoryKeepsValid(db, access.value);
    db.categories := RemoveAt(db.categories, access.value);
    r := Success(true);
  }
}
