/** The dish router: ownership-gated creation, queries, updates and deletion of
    dishes, and the dish-category link table. */
module DishRouter {
  import opened Common
  import opened Store

  // ---------------------------------------------------------------------
  // Category-membership validation

  /** `category.findMany({ where: { id: { in: ids }, restaurantId } }).length`:
      the number of category rows of the restaurant whose id is listed. */
  function CountMatching(categories: seq<Category>, ids: seq<Id>, restaurantId: Id): (n: nat)
    ensures n <= |categories|
  {
    if categories == [] then 0
    else
      (if categories[0].id in ids && categories[0].restaurantId == restaurantId then 1 else 0)
      + CountMatching(categories[1..], ids, restaurantId)
  }

  /** The ids those rows carry. */
  function MatchedIds(categories: seq<Category>, ids: seq<Id>, restaurantId: Id): (s: set<Id>)
    ensures forall x :: x in s ==> x in ids
  {
    if categories == [] then {}
    else
      (if categories[0].id in ids && categories[0].restaurantId == restaurantId then {categories[0].id} else {})
      + MatchedIds(categories[1..], ids, restaurantId)
  }

  predicate Distinct(ids: seq<Id>) {
    forall i, j :: 0 <= i < j < |ids| ==> ids[i] != ids[j]
  }

  lemma {:induction false} MatchedIdsMeaning(categories: seq<Category>, ids: seq<Id>, restaurantId: Id, x: Id)
    ensures x in MatchedIds(categories, ids, restaurantId) <==> x in ids && IsCategoryOf(categories, x, restaurantId)
  {
    if categories != [] {
      MatchedIdsMeaning(categories[1..], ids, restaurantId, x);
      if IsCategoryOf(categories, x, restaurantId) {
        var i :| 0 <= i < |categories| && categories[i].id == x && categories[i].restaurantId == restaurantId;
        if i > 0 {
          assert categories[1..][i - 1] == categories[i];
        }
      }
      if IsCategoryOf(categories[1..], x, restaurantId) {
        var i :| 0 <= i < |categories[1..]| && categories[1..][i].id == x && categories[1..][i].restaurantId == restaurantId;
        assert categories[i + 1] == categories[1..][i];
      }
    }
  }

  /** With unique category ids, each counted row contributes a distinct id. */
  lemma {:induction false} CountIsMatchedIds(categories: seq<Category>, ids: seq<Id>, restaurantId: Id)
    requires UniqueCategoryIds(categories)
    ensures CountMatching(categories, ids, restaurantId) == |MatchedIds(categories, ids, restaurantId)|
  {
    if categories != [] {
      var rest := categories[1..];
      assert UniqueCategoryIds(rest);
      CountIsMatchedIds(rest, ids, restaurantId);
      var c := categories[0];
      MatchedIdsMeaning(rest, ids, restaurantId, c.id);
      assert c.id !in MatchedIds(rest, ids, restaurantId);
    }
  }

  /** A sequence has as many distinct elements as entries exactly when no entry repeats. */
  lemma {:induction false} DistinctCardinality(ids: seq<Id>)
    ensures |set x | x in ids| <= |ids|
    ensures |set x | x in ids| == |ids| <==> Distinct(ids)
  {
    if ids != [] {
      var rest := ids[1..];
      DistinctCardinality(rest);
      assert (set x | x in ids) == {ids[0]} + (set x | x in rest);
      if ids[0] in rest {
        assert (set x | x in ids) == (set x | x in rest);
        var j :| 0 <= j < |rest| && rest[j] == ids[0];
        assert ids[0] == ids[j + 1];
        assert !Distinct(ids);
      } else {
        assert Distinct(ids) <==> Distinct(rest) by {
          if Distinct(rest) {
            forall i, j | 0 <= i < j < |ids| ensures ids[i] != ids[j] {
              if i == 0 {
                assert ids[j] == rest[j - 1];
              } else {
                assert ids[i] == rest[i - 1] && ids[j] == rest[j - 1];
              }
            }
          }
          if Distinct(ids) {
            forall i, j | 0 <= i < j < |rest| ensures rest[i] != rest[j] {
              assert rest[i] == ids[i + 1] && rest[j] == ids[j + 1];
            }
          }
        }
      }
    }
  }

  /** The count check passes exactly when the listed ids are distinct and every one
      names a category of the restaurant: a foreign, missing or repeated id fails it. */
  lemma CountCheckMeaning(categories: seq<Category>, ids: seq<Id>, restaurantId: Id)
    requires UniqueCategoryIds(categories)
    ensures CountMatching(categories, ids, restaurantId) == |ids| <==>
      Distinct(ids) && forall i :: 0 <= i < |ids| ==> IsCategoryOf(categories, ids[i], restaurantId)
  {
    var matched := MatchedIds(categories, ids, restaurantId);
    var listed := set x | x in ids;
    CountIsMatchedIds(categories, ids, restaurantId);
    DistinctCardinality(ids);
    assert matched <= listed;
    assert |listed - matched| == |listed| - |matched|;
    if CountMatching(categories, ids, restaurantId) == |ids| {
      assert |listed - matched| == 0;
      assert listed - matched == {};
      forall i | 0 <= i < |ids| ensures IsCategoryOf(categories, ids[i], restaurantId) {
        assert ids[i] in listed;
        MatchedIdsMeaning(categories, ids, restaurantId, ids[i]);
      }
    }
    if Distinct(ids) && forall i :: 0 <= i < |ids| ==> IsCategoryOf(categories, ids[i], restaurantId) {
      forall x | x in listed ensures x in matched {
        MatchedIdsMeaning(categories, ids, restaurantId, x);
      }
      assert listed == matched;
    }
  }

  // ---------------------------------------------------------------------
  // The link table

  /** The category ids a dish is linked to. */
  function LinksOf(links: set<Link>, dishId: Id): set<Id> {
    set l | l in links && l.dishId == dishId :: l.categoryId
  }

  /** `categoryIds.map(categoryId => ({ dishId, categoryId }))` as link rows. */
  function NewLinks(dishId: Id, ids: seq<Id>): (r: set<Link>)
    ensures forall l: Link :: l in r <==> l.dishId == dishId && l.categoryId in ids
  {
    set c | c in ids :: Link(dishId, c)
  }

  /** `dishCategory.deleteMany({ where: { dishId } })` followed by `createMany` of the new rows. */
  function ReplaceLinks(links: set<Link>, dishId: Id, ids: seq<Id>): (r: set<Link>)
    ensures LinksOf(r, dishId) == set c | c in ids
    ensures forall l: Link :: l.dishId != dishId ==> (l in r <==> l in links)
  {
    var r := (set l | l in links && l.dishId != dishId) + NewLinks(dishId, ids);
    assert forall c :: c in ids ==> Link(dishId, c) in r;
    r
  }

  /** Adding a new dish's links gives it exactly the listed categories and leaves
      every other dish's links as they were. */
  lemma NewLinksExactly(links: set<Link>, dishId: Id, ids: seq<Id>, other: Id)
    requires forall l :: l in links ==> l.dishId != dishId
    ensures LinksOf(links + NewLinks(dishId, ids), dishId) == set c | c in ids
    ensures other != dishId ==> LinksOf(links + NewLinks(dishId, ids), other) == LinksOf(links, other)
  {
  }

  /** After a passing check, the dish is linked to exactly the listed categories,
      each of them a category of the dish's restaurant. */
  lemma CheckedLinksBelong(categories: seq<Category>, links: set<Link>, dishId: Id, ids: seq<Id>, restaurantId: Id)
    requires UniqueCategoryIds(categories)
    requires CountMatching(categories, ids, restaurantId) == |ids|
    ensures LinksOf(ReplaceLinks(links, dishId, ids), dishId) == set c | c in ids
    ensures forall c :: c in LinksOf(ReplaceLinks(links, dishId, ids), dishId) ==> IsCategoryOf(categories, c, restaurantId)
  {
    CountCheckMeaning(categories, ids, restaurantId);
    forall c | c in LinksOf(ReplaceLinks(links, dishId, ids), dishId) ensures IsCategoryOf(categories, c, restaurantId) {
      var i :| 0 <= i < |ids| && ids[i] == c;
    }
  }

  // ---------------------------------------------------------------------
  // Queries

  /** `dish.findMany({ where: { restaurantId }, orderBy: { createdAt: "desc" } })`
      over a table kept in creation order: the restaurant's dishes, last created first. */
  function DishesNewestFirst(dishes: seq<Dish>, restaurantId: Id): (r: seq<Dish>)
    ensures forall d :: d in r <==> d in dishes && d.restaurantId == restaurantId
    ensures |r| <= |dishes|
  {
    if dishes == [] then []
    else
      var last := dishes[|dishes| - 1];
      var earlier := DishesNewestFirst(dishes[..|dishes| - 1], restaurantId);
      assert forall d :: d in dishes <==> d in dishes[..|dishes| - 1] || d == last;
      if last.restaurantId == restaurantId then [last] + earlier else earlier
  }

  ghost predicate NewestFirst(dishes: seq<Dish>) {
    forall i, j :: 0 <= i < j < |dishes| ==> dishes[i].createdAt >= dishes[j].createdAt
  }

  /** Over a table in creation order, the selection is in `createdAt` descending order. */
  lemma {:induction false} DishesNewestFirstOrdered(dishes: seq<Dish>, restaurantId: Id)
    requires DishesOldestFirst(dishes)
    ensures NewestFirst(DishesNewestFirst(dishes, restaurantId))
  {
    if dishes != [] {
      var prefix := dishes[..|dishes| - 1];
      var last := dishes[|dishes| - 1];
      assert DishesOldestFirst(prefix);
      DishesNewestFirstOrdered(prefix, restaurantId);
      var earlier := DishesNewestFirst(prefix, restaurantId);
      if last.restaurantId == restaurantId {
        forall j | 0 <= j < |earlier| ensures last.createdAt >= earlier[j].createdAt {
          assert earlier[j] in prefix;
        }
      }
    }
  }

  /** Selecting by restaurant never repeats a dish id when the table has unique ids. */
  lemma {:induction false} DishesNewestFirstUnique(dishes: seq<Dish>, restaurantId: Id)
    requires UniqueDishIds(dishes)
    ensures UniqueDishIds(DishesNewestFirst(dishes, restaurantId))
  {
    if dishes != [] {
      var prefix := dishes[..|dishes| - 1];
      var last := dishes[|dishes| - 1];
      assert UniqueDishIds(prefix);
      DishesNewestFirstUnique(prefix, restaurantId);
      var earlier := DishesNewestFirst(prefix, restaurantId);
      if last.restaurantId == restaurantId {
        forall j | 0 <= j < |earlier| ensures last.id != earlier[j].id {
          assert earlier[j] in prefix;
        }
      }
    }
  }

  /** `dish.getByRestaurant`: ownership first, then the restaurant's dishes, newest first. */
  function GetByRestaurant(restaurants: map<Id, Restaurant>, dishes: seq<Dish>, caller: Id, restaurantId: Id)
    : (r: Result<seq<Dish>, Error>)
    ensures r.Failure? <==> !Owns(restaurants, restaurantId, caller)
    ensures r.Failure? ==> r.error == RestaurantNotFound
    ensures r.Success? ==> forall d :: d in r.value <==> d in dishes && d.restaurantId == restaurantId
    ensures r.Success? && DishesOldestFirst(dishes) ==> NewestFirst(r.value)
    ensures r.Success? && UniqueDishIds(dishes) ==> UniqueDishIds(r.value)
  {
    if !Owns(restaurants, restaurantId, caller) then
      Failure(RestaurantNotFound)
    else
      var found := DishesNewestFirst(dishes, restaurantId);
      assert DishesOldestFirst(dishes) ==> NewestFirst(found) by {
        if DishesOldestFirst(dishes) { DishesNewestFirstOrdered(dishes, restaurantId); }
      }
      assert UniqueDishIds(dishes) ==> UniqueDishIds(found) by {
        if UniqueDishIds(dishes) { DishesNewestFirstUnique(dishes, restaurantId); }
      }
      Success(found)
  }

  /** The guard shared by `getById`, `update` and `delete`: NOT_FOUND when no dish
      has the id, then `denied` (a FORBIDDEN error) when its restaurant belongs to
      someone else; otherwise the position of the dish. */
  function DishAccess(restaurants: map<Id, Restaurant>, dishes: seq<Dish>, caller: Id, id: Id, denied: Error)
    : (r: Result<nat, Error>)
    requires denied.Code() == Forbidden
    ensures FindDish(dishes, id).None? <==> r == Failure(DishNotFound)
    ensures FindDish(dishes, id).Some? ==>
      var d := dishes[FindDish(dishes, id).value];
      if Owns(restaurants, d.restaurantId, caller) then r == Success(FindDish(dishes, id).value)
      else r == Failure(denied)
    ensures r.Success? ==> r.value < |dishes| && dishes[r.value].id == id
  {
    var found := FindDish(dishes, id);
    if found.None? then Failure(DishNotFound)
    else if !Owns(restaurants, dishes[found.value].restaurantId, caller) then Failure(denied)
    else Success(found.value)
  }

  /** `dish.getById`: the caller's dish with that id, or NOT_FOUND, then FORBIDDEN. */
  function GetById(restaurants: map<Id, Restaurant>, dishes: seq<Dish>, caller: Id, id: Id): (r: Result<Dish, Error>)
    ensures r == Failure(DishNotFound) <==> forall i :: 0 <= i < |dishes| ==> dishes[i].id != id
    ensures r == Failure(DishViewDenied) <==>
      FindDish(dishes, id).Some? && !Owns(restaurants, dishes[FindDish(dishes, id).value].restaurantId, caller)
    ensures FindDish(dishes, id).Some? && Owns(restaurants, dishes[FindDish(dishes, id).value].restaurantId, caller) ==>
      r == Success(dishes[FindDish(dishes, id).value])
    ensures r.Success? ==> r.value in dishes && r.value.id == id && Owns(restaurants, r.value.restaurantId, caller)
  {
    var access := DishAccess(restaurants, dishes, caller, id, DishViewDenied);
    if access.Failure? then Failure(access.error) else Success(dishes[access.value])
  }

  // ---------------------------------------------------------------------
  // Table updates

  /** The dish after `update`: `name` and `dietaryType` change only when given;
      `image`, `description`, `spiceLevel` and `price` change whenever they are not
      `undefined`, `null` clearing them; the id, restaurant and creation time never change. */
  function ApplyUpdate(d: Dish, name: Option<string>, image: Patch<string>, description: Patch<string>,
                       spiceLevel: Patch<int>, dietaryType: Option<DietaryType>, price: Patch<real>): (r: Dish)
    ensures r.id == d.id && r.restaurantId == d.restaurantId && r.createdAt == d.createdAt
    ensures r.name == if Truthy(name) then name.value else d.name
    ensures r.dietaryType == dietaryType.GetOr(d.dietaryType)
    ensures r.image == ApplyPatch(d.image, image)
    ensures r.description == ApplyPatch(d.description, description)
    ensures r.spiceLevel == ApplyPatch(d.spiceLevel, spiceLevel)
    ensures r.price == ApplyPatch(d.price, price)
  {
    d.(name := if Truthy(name) then name.value else d.name,
       image := ApplyPatch(d.image, image),
       description := ApplyPatch(d.description, description),
       spiceLevel := ApplyPatch(d.spiceLevel, spiceLevel),
       dietaryType := dietaryType.GetOr(d.dietaryType),
       price := ApplyPatch(d.price, price))
  }

  /** Deleting the row found for `id` removes exactly that dish. */
  lemma RemoveDishExactly(dishes: seq<Dish>, id: Id, d: Dish)
    requires UniqueDishIds(dishes)
    requires FindDish(dishes, id).Some?
    ensures var rest := RemoveAt(dishes, FindDish(dishes, id).value);
      (d in rest <==> d in dishes && d.id != id) && FindDish(rest, id).None?
  {
  }

  lemma RemoveDishKeepsValid(db: Db, i: nat)
    requires db.Valid() && i < |db.dishes|
    ensures var rest := RemoveAt(db.dishes, i);
      && UniqueDishIds(rest)
      && (forall k :: 0 <= k < |rest| ==> rest[k].restaurantId in db.restaurants)
      && DishesChronological(rest, db.now)
  {
  }

  // ---------------------------------------------------------------------
  // Procedures

  /** `dish.create`: ownership, then (for a non-empty list) the category count check,
      then one dish and one link per listed category. `dietaryType` defaults to
      vegetarian and `categoryIds` to the empty list. */
  method Create(db: Db, caller: Id, restaurantId: Id, name: string, image: Option<string>,
                description: Option<string>, spiceLevel: Option<int>, dietaryType: Option<DietaryType>,
                price: Option<real>, categoryIds: Option<seq<Id>>, newId: Id)
    returns (r: Result<Dish, Error>)
    requires db.Valid()
    requires !DishIdInUse(db.dishes, db.links, newId)
    modifies db`dishes, db`links
    ensures db.Valid()
    ensures r == Failure(RestaurantNotFound) <==> !Owns(db.restaurants, restaurantId, caller)
    ensures r == Failure(CategoriesMismatch) <==>
      var ids := categoryIds.GetOr([]);
      Owns(db.restaurants, restaurantId, caller) && |ids| > 0 && CountMatching(db.categories, ids, restaurantId) != |ids|
    ensures r.Success? <==>
      var ids := categoryIds.GetOr([]);
      Owns(db.restaurants, restaurantId, caller) && (|ids| > 0 ==> CountMatching(db.categories, ids, restaurantId) == |ids|)
    ensures r.Failure? ==> db.dishes == old(db.dishes) && db.links == old(db.links)
    ensures r.Success? ==>
      var ids := categoryIds.GetOr([]);
      && r.value == Dish(newId, restaurantId, name, image, description, spiceLevel,
                         dietaryType.GetOr(Vegetarian), price, db.now)
      && db.dishes == old(db.dishes) + [r.value]
      && db.links == old(db.links) + NewLinks(newId, ids)
  {
    if !Owns(db.restaurants, restaurantId, caller) {
      return Failure(RestaurantNotFound);
    }
    var ids := categoryIds.GetOr([]);
    if |ids| > 0 && CountMatching(db.categories, ids, restaurantId) != |ids| {
      return Failure(CategoriesMismatch);
    }
    var dish := Dish(newId, restaurantId, name, image, description, spiceLevel,
                     dietaryType.GetOr(Vegetarian), price, db.now);
    db.dishes := db.dishes + [dish];
    db.links := db.links + NewLinks(newId, ids);
    r := Success(dish);
  }

  /** `dish.update`: existence, ownership (FORBIDDEN), then the category check before
      anything is written; given `categoryIds` replace the dish's links wholesale. */
  method Update(db: Db, caller: Id, id: Id, name: Option<string>, image: Patch<string>,
                description: Patch<string>, spiceLevel: Patch<int>, dietaryType: Option<DietaryType>,
                price: Patch<real>, categoryIds: Option<seq<Id>>)
    returns (r: Result<Dish, Error>)
    requires db.Valid()
    modifies db`dishes, db`links
    ensures db.Valid()
    ensures var access := DishAccess(db.restaurants, old(db.dishes), caller, id, DishUpdateDenied);
      if access.Failure? then
        r == Failure(access.error)
      else
        var d := old(db.dishes)[access.value];
        if categoryIds.Some? && CountMatching(db.categories, categoryIds.value, d.restaurantId) != |categoryIds.value| then
          r == Failure(CategoriesMismatch)
        else
          && r == Success(ApplyUpdate(d, name, image, description, spiceLevel, dietaryType, price))
          && db.dishes == old(db.dishes)[access.value := r.value]
          && db.links == if categoryIds.Some? then ReplaceLinks(old(db.links), id, categoryIds.value) else old(db.links)
    ensures r.Failure? ==> db.dishes == old(db.dishes) && db.links == old(db.links)
  {
    var access := DishAccess(db.restaurants, db.dishes, caller, id, DishUpdateDenied);
    if access.Failure? {
      return Failure(access.error);
    }
    var d := db.dishes[access.value];
    if categoryIds.Some? {
      if CountMatching(db.categories, categoryIds.value, d.restaurantId) != |categoryIds.value| {
        return Failure(CategoriesMismatch);
      }
      db.links := ReplaceLinks(db.links, id, categoryIds.value);
    }
    var updated := ApplyUpdate(d, name, image, description, spiceLevel, dietaryType, price);
    db.dishes := db.dishes[access.value := updated];
    r := Success(updated);
  }

  /** `dish.delete`: existence, ownership (FORBIDDEN), then the dish row goes. */
  method Delete(db: Db, caller: Id, id: Id) returns (r: Result<bool, Error>)
    requires db.Valid()
    modifies db`dishes
    ensures db.Valid()
    ensures var access := DishAccess(db.restaurants, old(db.dishes), caller, id, DishDeleteDenied);
      if access.Failure? then
        r == Failure(access.error) && db.dishes == old(db.dishes)
      else
        r == Success(true) && db.dishes == RemoveAt(old(db.dishes), access.value)
  {
    var access := DishAccess(db.restaurants, db.dishes, caller, id, DishDeleteDenied);
    if access.Failure? {
      return Failure(access.error);
    }
    RemoveDishKeepsValid(db, access.value);
    db.dishes := RemoveAt(db.dishes, access.value);
    r := Success(true);
  }
}
