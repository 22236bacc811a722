/** Value types shared by every router: optional values, results, the
    three-way "partial update" field, and the error taxonomy of the tRPC layer. */
module Common {

  /** JavaScript `undefined`/absent versus a present value. */
  datatype Option<+T> = None | Some(value: T) {
    function GetOr(default: T): T {
      if Some? then value else default
    }
  }

  /** A procedure either returns a value or throws a typed error. */
  datatype Result<+T, +E> = Success(value: T) | Failure(error: E)

  /** A field of a partial-update input that is `.optional().nullable()`:
      left out (`undefined`), explicitly `null`, or a new value. */
  datatype Patch<+T> = Omitted | Null | Value(v: T)

  /** The stored value after writing a patch field: `undefined` keeps it,
      `null` clears it, a value replaces it. */
  function ApplyPatch<T>(current: Option<T>, p: Patch<T>): (r: Option<T>)
    ensures p.Omitted? ==> r == current
    ensures p.Null? ==> r.None?
    ensures p.Value? ==> r == Some(p.v)
  {
    match p
    case Omitted => current
    case Null => None
    case Value(v) => Some(v)
  }

  /** Row identifiers are opaque strings generated by the database. */
  type Id = string

  /** JavaScript truthiness of an optional string: `undefined` and `""` are falsy. */
  predicate Truthy(s: Option<string>) {
    s.Some? && s.value != ""
  }

  /** The position of the first element satisfying `p`: a `findFirst` (or, on a
      unique key, `findUnique`) over a table kept in insertion order. */
  function FirstIndex<T>(s: seq<T>, p: T -> bool): (r: Option<nat>)
    ensures r.Some? ==> r.value < |s| && p(s[r.value])
    ensures r.Some? ==> forall j :: 0 <= j < r.value ==> !p(s[j])
    ensures r.None? <==> forall i :: 0 <= i < |s| ==> !p(s[i])
  {
    if s == [] then None
    else if p(s[0]) then Some(0)
    else
      var r := FirstIndex(s[1..], p);
      if r.Some? then Some(r.value + 1) else None
  }

  /** The sequence with the element at position `i` taken out. */
  function RemoveAt<T>(s: seq<T>, i: nat): (r: seq<T>)
    requires i < |s|
    ensures |r| == |s| - 1
    ensures forall k :: 0 <= k < i ==> r[k] == s[k]
    ensures forall k :: i <= k < |r| ==> r[k] == s[k + 1]
  {
    s[..i] + s[i + 1..]
  }

  /** The error codes of the tRPC error taxonomy that the routers raise. */
  datatype ErrorCode = Unauthorized | BadRequest | Conflict | NotFound | Forbidden

  /** One constructor per distinct (code, message) pair of a thrown `TRPCError`;
      a pair thrown at several places is one constructor. */
  datatype Error =
    | InvalidCode
    | InvalidCountry
    | UserExists
    | UserNotFound
    | RestaurantNotFound
    | ParentNotFound
    | CategoryNotFound
    | CategoryUpdateDenied
    | CategoryDeleteDenied
    | CategoriesMismatch
    | DishNotFound
    | DishViewDenied
    | DishUpdateDenied
    | DishDeleteDenied
  {
    /** The `code` field of the thrown error. */
    function Code(): ErrorCode {
      match this
      case InvalidCode => Unauthorized
      case InvalidCountry => BadRequest
      case UserExists => Conflict
      case UserNotFound => NotFound
      case RestaurantNotFound => NotFound
      case ParentNotFound => NotFound
      case CategoryNotFound => NotFound
      case CategoryUpdateDenied => Forbidden
      case CategoryDeleteDenied => Forbidden
      case CategoriesMismatch => BadRequest
      case DishNotFound => NotFound
      case DishViewDenied => Forbidden
      case DishUpdateDenied => Forbidden
      case DishDeleteDenied => Forbidden
    }

    /** The `message` field of the thrown error. */
    function Message(): string {
      match this
      case InvalidCode => "Invalid or expired verification code"
      case InvalidCountry => "Invalid country name"
      case UserExists => "User with this email already exists"
      case UserNotFound => "User not found. Please register first."
      case RestaurantNotFound => "Restaurant not found"
      case ParentNotFound => "Parent category not found"
      case CategoryNotFound => "Category not found"
      case CategoryUpdateDenied => "You don't have permission to update this category"
      case CategoryDeleteDenied => "You don't have permission to delete this category"
      case CategoriesMismatch => "One or more categories not found or don't belong to this restaurant"
      case DishNotFound => "Dish not found"
      case DishViewDenied => "You don't have permission to view this dish"
      case DishUpdateDenied => "You don't have permission to update this dish"
      case DishDeleteDenied => "You don't have permission to delete this dish"
    }
  }

  /** Distinct errors are told apart by what the client receives: no two
      constructors share both their code and their message. */
  lemma ErrorsDistinct(e: Error, f: Error)
    ensures e != f ==> e.Code() != f.Code() || e.Message() != f.Message()
  {
  }
}
