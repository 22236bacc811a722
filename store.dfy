/** The relational store the routers work on, as in-memory tables.
    One object stands for the ORM client `db`: each table is a field, rows are
    kept in insertion order, and `now` is the clock that stamps expiries and
    creation times. */
module Store {
  import opened Common

  /** A row of the email-verification table. */
  datatype CodeRow = CodeRow(email: string, code: string, expiresAt: int)

  /** A user as the auth procedures return it. */
  datatype User = User(id: Id, email: string, fullName: string, countryName: string)

  /** The part of a restaurant the routers read: its owner. */
  datatype Restaurant = Restaurant(userId: Id)

  datatype Category = Category(id: Id, name: string, restaurantId: Id, parentId: Option<Id>, createdAt: int)

  datatype DietaryType = Vegetarian | NonVegetarian

  /** A dish; `price` is the floating-point price, modelled as a real number on
      which no arithmetic is done. */
  datatype Dish = Dish(
    id: Id,
    restaurantId: Id,
    name: string,
    image: Option<string>,
    description: Option<string>,
    spiceLevel: Option<int>,
    dietaryType: DietaryType,
    price: Option<real>,
    createdAt: int)

  /** A row of the dish-category join table. */
  datatype Link = Link(dishId: Id, categoryId: Id)

  // ---------------------------------------------------------------------
  // Table invariants, stated on table values

  /** At most one verification row per email: every send replaces the old ones. */
  ghost predicate OneCodePerEmail(codes: seq<CodeRow>) {
    forall i, j :: 0 <= i < j < |codes| ==> codes[i].email != codes[j].email
  }

  ghost predicate UniqueUsers(users: seq<User>) {
    forall i, j :: 0 <= i < j < |users| ==> users[i].id != users[j].id && users[i].email != users[j].email
  }

  ghost predicate UniqueCategoryIds(categories: seq<Category>) {
    forall i, j :: 0 <= i < j < |categories| ==> categories[i].id != categories[j].id
  }

  ghost predicate UniqueDishIds(dishes: seq<Dish>) {
    forall i, j :: 0 <= i < j < |dishes| ==> dishes[i].id != dishes[j].id
  }

  /** Ordered by `createdAt` ascending. */
  ghost predicate CategoriesOldestFirst(categories: seq<Category>) {
    forall i, j :: 0 <= i < j < |categories| ==> categories[i].createdAt <= categories[j].createdAt
  }

  ghost predicate DishesOldestFirst(dishes: seq<Dish>) {
    forall i, j :: 0 <= i < j < |dishes| ==> dishes[i].createdAt <= dishes[j].createdAt
  }

  /** Rows were created in clock order and never in the future. */
  ghost predicate CategoriesChronological(categories: seq<Category>, now: int) {
    && CategoriesOldestFirst(categories)
    && (forall i :: 0 <= i < |categories| ==> categories[i].createdAt <= now)
  }

  ghost predicate DishesChronological(dishes: seq<Dish>, now: int) {
    && DishesOldestFirst(dishes)
    && (forall i :: 0 <= i < |dishes| ==> dishes[i].createdAt <= now)
  }

  // ---------------------------------------------------------------------
  // Lookups

  predicate UserIdInUse(users: seq<User>, id: Id) {
    exists i :: 0 <= i < |users| && users[i].id == id
  }

  predicate CategoryIdInUse(categories: seq<Category>, id: Id) {
    exists i :: 0 <= i < |categories| && categories[i].id == id
  }

  /** An id names a dish, or appears in a link row left behind by one. */
  predicate DishIdInUse(dishes: seq<Dish>, links: set<Link>, id: Id) {
    (exists i :: 0 <= i < |dishes| && dishes[i].id == id) || (exists l :: l in links && l.dishId == id)
  }

  /** `restaurant.findFirst({ where: { id, userId } })` finds a row. */
  predicate Owns(restaurants: map<Id, Restaurant>, restaurantId: Id, userId: Id) {
    restaurantId in restaurants && restaurants[restaurantId].userId == userId
  }

  /** `category.findFirst({ where: { id, restaurantId } })` finds a row. */
  predicate IsCategoryOf(categories: seq<Category>, id: Id, restaurantId: Id) {
    exists i :: 0 <= i < |categories| && categories[i].id == id && categories[i].restaurantId == restaurantId
  }

  /** `findUnique({ where: { email } })` on the user table. */
  function FindUserByEmail(users: seq<User>, email: string): (r: Option<nat>)
    ensures r.Some? ==> r.value < |users| && users[r.value].email == email
    ensures r.None? <==> forall i :: 0 <= i < |users| ==> users[i].email != email
  {
    FirstIndex(users, (u: User) => u.email == email)
  }

  /** `findUnique({ where: { id } })` on the user table. */
  function FindUserById(users: seq<User>, id: Id): (r: Option<nat>)
    ensures r.Some? ==> r.value < |users| && users[r.value].id == id
    ensures r.None? <==> !UserIdInUse(users, id)
  {
    FirstIndex(users, (u: User) => u.id == id)
  }

  /** `category.findFirst({ where: { id } })`. */
  function FindCategory(categories: seq<Category>, id: Id): (r: Option<nat>)
    ensures r.Some? ==> r.value < |categories| && categories[r.value].id == id
    ensures r.None? <==> !CategoryIdInUse(categories, id)
  {
    FirstIndex(categories, (c: Category) => c.id == id)
  }

  /** `dish.findFirst({ where: { id } })`. */
  function FindDish(dishes: seq<Dish>, id: Id): (r: Option<nat>)
    ensures r.Some? ==> r.value < |dishes| && dishes[r.value].id == id
    ensures r.None? <==> forall i :: 0 <= i < |dishes| ==> dishes[i].id != id
  {
    FirstIndex(dishes, (d: Dish) => d.id == id)
  }

  // ---------------------------------------------------------------------
  // The store

  class Db {
    /** The clock, in milliseconds. */
    var now: int
    var codes: seq<CodeRow>
    var users: seq<User>
    /** The restaurant table; no procedure of this model changes it. */
    const restaurants: map<Id, Restaurant>
    var categories: seq<Category>
    var dishes: seq<Dish>
    var links: set<Link>

    ghost predicate Valid()
      reads this
    {
      && OneCodePerEmail(codes)
      && UniqueUsers(users)
      && UniqueCategoryIds(categories)
      && (forall i :: 0 <= i < |categories| ==> categories[i].restaurantId in restaurants)
      && CategoriesChronological(categories, now)
      && UniqueDishIds(dishes)
      && (forall i :: 0 <= i < |dishes| ==> dishes[i].restaurantId in restaurants)
      && DishesChronological(dishes, now)
    }

    /** An empty store over a given restaurant table. */
    constructor (restaurants: map<Id, Restaurant>, now: int)
      ensures Valid()
      ensures this.restaurants == restaurants && this.now == now
      ensures codes == [] && users == [] && categories == [] && dishes == [] && links == {}
    {
      this.now := now;
      this.restaurants := restaurants;
      codes, users, categories, dishes, links := [], [], [], [], {};
    }

    /** Time passes; the clock never runs backwards. */
    method Tick(dt: nat)
      requires Valid()
      modifies this`now
      ensures Valid()
      ensures now == old(now) + dt
    {
      now := now + dt;
    }
  }
}
