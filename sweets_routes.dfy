/** The sweet routes of routes/sweetsRoutes.js: the admin gate, the guards
    of each handler, the search filter, and the handlers that change the
    sweet collection, each taken as one atomic step on a map-valued table. */
module SweetRoutes {
  import opened Common
  import opened Jwt
  import opened SweetSchema

  const AdminsOnlyMessage := "Access denied: Admins only"
  const RequiredMessage := "Name, category, price, and quantity are required"
  const NegativeMessage := "Price and quantity cannot be negative"
  const DuplicateNameMessage := "Sweet with this name already exists"
  const NotFoundMessage := "Sweet not found"
  const OutOfStockMessage := "Out of stock"
  const DeletedMessage := "Sweet deleted successfully"

  const Forbidden := Failure(StatusForbidden, AdminsOnlyMessage)
  const SweetNotFound := Failure(StatusNotFound, NotFoundMessage)

  // ----- The admin gate -----

  /** isAdmin, and the identical inline check of the update, delete and
      restock handlers: any role other than exactly `'admin'` is refused. */
  function AdminCheck(user: Claims): (f: Option<Failure>)
    ensures f.None? <==> user.role == AdminRole
    ensures f.Some? ==> f.value == Forbidden
  {
    if user.role != AdminRole then Some(Forbidden) else None
  }

  /** jwtAuthMiddleware followed by the admin check, as every admin-only
      route runs them: authentication failures come first and unchanged,
      then a non-admin caller is refused with 403. */
  function AdminRoute(header: Option<string>, verify: string -> Verification): (r: AuthResult)
    ensures Authenticate(header, verify).Deny? ==> r == Authenticate(header, verify)
    ensures Authenticate(header, verify).Proceed? ==>
      r == if Authenticate(header, verify).user.role == AdminRole
           then Authenticate(header, verify) else Deny(Forbidden)
    ensures r.Proceed? ==> r.user.role == AdminRole
  {
    match Authenticate(header, verify)
    case Deny(f) => Deny(f)
    case Proceed(user) =>
      match AdminCheck(user)
      case Some(f) => Deny(f)
      case None => Proceed(user)
  }

  /** An admin-only route called without a token is unauthorized, and one
      called with a valid token of a non-admin is forbidden. */
  lemma AdminRouteRefusals(header: Option<string>, verify: string -> Verification)
    ensures ExtractToken(header).None? ==>
      AdminRoute(header, verify) == Deny(Failure(StatusUnauthorized, NoTokenMessage))
    ensures ExtractToken(header).Some? && verify(ExtractToken(header).value).Verified?
            && verify(ExtractToken(header).value).claims.role != AdminRole ==>
      AdminRoute(header, verify) == Deny(Forbidden)
  {
  }

  // ----- Create -----

  /** The body of `POST /`. */
  datatype NewSweet = NewSweet(name: Option<string>, category: Option<string>,
                               price: Option<int>, quantity: Option<int>,
                               description: Option<string>, image: Option<string>)

  /** `!name || !category || price === undefined || quantity === undefined`:
      a zero price or quantity is present. */
  predicate MissingRequired(req: NewSweet) {
    !Present(req.name) || !Present(req.category) || req.price.None? || req.quantity.None?
  }

  /** The record that creating `req` would save. */
  function NewDocument(req: NewSweet): Sweet
    requires !MissingRequired(req)
  {
    Document(req.name.value, req.category.value, req.price.value, req.quantity.value,
             req.description, req.image)
  }

  /** The checks of the create handler that need no store: the required
      fields first, then the sign of price and quantity. Whatever passes them
      also passes the schema's validators, so saving it cannot fail. */
  function CheckNewSweet(req: NewSweet): (f: Option<Failure>)
    ensures f.Some? ==> f.value.status == StatusBadRequest
    ensures MissingRequired(req) ==> f == Some(Failure(StatusBadRequest, RequiredMessage))
    ensures !MissingRequired(req) && (req.price.value < 0 || req.quantity.value < 0) ==>
      f == Some(Failure(StatusBadRequest, NegativeMessage))
    ensures f.None? <==> !MissingRequired(req) && req.price.value >= 0 && req.quantity.value >= 0
    ensures f.None? ==> SweetValid(NewDocument(req)) && DescriptionTrimmed(NewDocument(req))
  {
    if MissingRequired(req) then Some(Failure(StatusBadRequest, RequiredMessage))
    else if req.price.value < 0 || req.quantity.value < 0 then Some(Failure(StatusBadRequest, NegativeMessage))
    else
      DocumentFields(req.name.value, req.category.value, req.price.value, req.quantity.value,
                     req.description, req.image);
      None
  }

  /** A zero price and a zero quantity pass the create checks. */
  lemma ZeroPriceAndQuantityAccepted(name: string, category: string,
                                     description: Option<string>, image: Option<string>)
    requires name != "" && category != ""
    ensures CheckNewSweet(NewSweet(Some(name), Some(category), Some(0), Some(0), description, image)) == None
  {
  }

  // ----- Update -----

  /** The body of `PUT /:id`: only the fields it carries are written. */
  datatype SweetPatch = SweetPatch(name: Option<string>, category: Option<string>,
                                   price: Option<int>, quantity: Option<int>,
                                   description: Option<string>, image: Option<string>)

  /** `findByIdAndUpdate(id, body)`: the fields in the patch overwrite the
      record's, the others stay; the `trim` setter still applies to the
      description, but no validator runs. */
  function ApplyPatch(s: Sweet, p: SweetPatch): (r: Sweet)
    ensures p.name.None? ==> r.name == s.name
    ensures p.name.Some? ==> r.name == p.name.value
    ensures p.category.None? ==> r.category == s.category
    ensures p.category.Some? ==> r.category == p.category.value
    ensures p.price.None? ==> r.price == s.price
    ensures p.price.Some? ==> r.price == p.price.value
    ensures p.quantity.None? ==> r.quantity == s.quantity
    ensures p.quantity.Some? ==> r.quantity == p.quantity.value
    ensures p.description.None? ==> r.description == s.description
    ensures p.description.Some? ==> r.description == Some(Trim(p.description.value))
    ensures p.image.None? ==> r.image == s.image
    ensures p.image.Some? ==> r.image == p.image.value
    ensures DescriptionTrimmed(s) ==> DescriptionTrimmed(r)
  {
    Sweet(p.name.GetOr(s.name), p.category.GetOr(s.category),
          p.price.GetOr(s.price), p.quantity.GetOr(s.quantity),
          if p.description.Some? then Some(Trim(p.description.value)) else s.description,
          p.image.GetOr(s.image))
  }

  /** An empty patch changes nothing. */
  lemma EmptyPatchKeepsRecord(s: Sweet)
    ensures ApplyPatch(s, SweetPatch(None, None, None, None, None, None)) == s
  {
  }

  /** The update applies the body as it is: a valid record patched with a
      negative price or quantity is stored although the schema forbids it. */
  lemma PatchBypassesValidators(s: Sweet, p: SweetPatch)
    requires (p.price.Some? && p.price.value < 0) || (p.quantity.Some? && p.quantity.value < 0)
    ensures !SweetValid(ApplyPatch(s, p))
  {
  }

  /** Writing `p` into record `id` would give two records the same name, which
      the unique index on name refuses. */
  predicate NameClash(t: Table, id: SweetId, p: SweetPatch) {
    p.name.Some? && exists j :: j in t && j != id && t[j].name == p.name.value
  }

  // ----- Search -----

  /** The query string of `GET /search`. Each field is present when its query
      value is a non-empty string; a price bound of `'0'` is non-empty, so it
      is a bound. */
  datatype SearchParams = SearchParams(name: Option<string>, category: Option<string>,
                                       minPrice: Option<int>, maxPrice: Option<int>)

  const NoFilters := SearchParams(None, None, None, None)

  /** Lower case of the ASCII letters. */
  function LowerChar(c: char): (l: char)
    ensures 'A' <= c <= 'Z' ==> l as int == c as int + 32
    ensures !('A' <= c <= 'Z') ==> l == c
  {
    if 'A' <= c <= 'Z' then (c as int + 32) as char else c
  }

  function Lower(s: string): (l: string)
    ensures |l| == |s|
    ensures forall k :: 0 <= k < |s| ==> l[k] == LowerChar(s[k])
  {
    seq(|s|, k requires 0 <= k < |s| => LowerChar(s[k]))
  }

  /** Upper case of the ASCII letters: the other side of `LowerChar`. */
  function UpperChar(c: char): char
  {
    if 'a' <= c <= 'z' then (c as int - 32) as char else c
  }

  function Upper(s: string): string
  {
    seq(|s|, k requires 0 <= k < |s| => UpperChar(s[k]))
  }

  /** A character and its upper case have the same lower case. */
  lemma LowerUpperChar(c: char)
    ensures LowerChar(UpperChar(c)) == LowerChar(c)
  {
  }

  /** A string and its upper case have the same lower case. */
  lemma LowerUpper(s: string)
    ensures Lower(Upper(s)) == Lower(s)
  {
    forall k | 0 <= k < |s|
      ensures Lower(Upper(s))[k] == Lower(s)[k]
    {
      LowerUpperChar(s[k]);
    }
  }

  /** With `$options: 'i'` the case of the letters in a record's field does
      not change whether the needle matches, nor does the case of the needle. */
  lemma MatchIgnoresCase(hay: string, needle: string)
    ensures ContainsIgnoringCase(Upper(hay), needle) == ContainsIgnoringCase(hay, needle)
    ensures ContainsIgnoringCase(hay, Upper(needle)) == ContainsIgnoringCase(hay, needle)
  {
    LowerUpper(hay);
    LowerUpper(needle);
  }

  predicate OccursAt(needle: string, hay: string, i: int) {
    0 <= i && i + |needle| <= |hay| && hay[i..i + |needle|] == needle
  }

  /** `{ $regex: needle, $options: 'i' }` with a needle free of regular
      expression syntax: a substring match that ignores case. */
  predicate ContainsIgnoringCase(hay: string, needle: string) {
    exists i :: 0 <= i <= |hay| - |needle| && OccursAt(Lower(needle), Lower(hay), i)
  }

  /** The query that the search handler builds, as a test on one record:
      every filter present must hold, an absent one imposes nothing. */
  predicate Matches(p: SearchParams, s: Sweet) {
    && (Present(p.name) ==> ContainsIgnoringCase(s.name, p.name.value))
    && (Present(p.category) ==> ContainsIgnoringCase(s.category, p.category.value))
    && (p.minPrice.Some? ==> s.price >= p.minPrice.value)
    && (p.maxPrice.Some? ==> s.price <= p.maxPrice.value)
  }

  /** `Sweet.find(query)`: the records, and only those, that meet the query. */
  function Search(t: Table, p: SearchParams): (r: Table)
    ensures r.Keys <= t.Keys
    ensures forall id :: id in r ==> r[id] == t[id] && Matches(p, t[id])
    ensures forall id :: id in t && Matches(p, t[id]) ==> id in r
  {
    map id | id in t && Matches(p, t[id]) :: t[id]
  }

  /** Without filters the search returns the whole collection, as `GET /` does. */
  lemma SearchWithoutFilters(t: Table)
    ensures Search(t, NoFilters) == t
  {
    assert forall id :: id in t ==> Matches(NoFilters, t[id]);
  }

  /** A price range keeps exactly the records priced inside it, bounds included. */
  lemma SearchPriceRange(t: Table, lo: int, hi: int)
    ensures forall id :: id in Search(t, SearchParams(None, None, Some(lo), Some(hi))) <==>
      id in t && lo <= t[id].price <= hi
  {
  }

  /** Adding a filter never adds results. */
  lemma SearchNarrows(t: Table, p: SearchParams, q: SearchParams)
    requires Present(p.name) ==> q.name == p.name
    requires Present(p.category) ==> q.category == p.category
    requires p.minPrice.Some? ==> q.minPrice == p.minPrice
    requires p.maxPrice.Some? ==> q.maxPrice == p.maxPrice
    ensures Search(t, q).Keys <= Search(t, p).Keys
  {
  }

  /** The name filter ignores case: `choc` finds "Chocolate Bar". */
  lemma ChocFindsChocolateBar()
    ensures ContainsIgnoringCase("Chocolate Bar", "choc")
  {
    var hay := Lower("Chocolate Bar");
    assert hay[..4] == "choc";
    assert OccursAt(Lower("choc"), hay, 0);
  }

  // ----- The stateful handlers -----

  /** The body of the purchase and restock replies: the message and the
      quantity now in stock (`remaining`, `newQuantity`). */
  datatype StockReceipt = StockReceipt(message: string, quantity: int)

  /** The body of the create reply: the id and the saved record. */
  datatype Stored = Stored(id: SweetId, sweet: Sweet)

  /** The sweet collection. Ids come from a counter standing for the store's
      fresh object ids. */
  class SweetStore {
    var sweets: Table
    var nextId: SweetId

    ghost predicate Valid()
      reads this
    {
      forall id :: id in sweets ==> id < nextId
    }

    constructor ()
      ensures Valid() && sweets == map[]
    {
      sweets := map[];
      nextId := 0;
    }

    /** `POST /` (after jwtAuthMiddleware): admin gate, create checks,
        unique name, then exactly one new record. */
    method Create(caller: Claims, req: NewSweet) returns (r: Reply<Stored>)
      requires Valid()
      modifies this
      ensures Valid()
      ensures AdminCheck(caller).Some? ==> r == Error(Forbidden)
      ensures AdminCheck(caller).None? && CheckNewSweet(req).Some? ==> r == Error(CheckNewSweet(req).value)
      ensures AdminCheck(caller).None? && CheckNewSweet(req).None? && NameTaken(old(sweets), req.name.value) ==>
        r == Error(Failure(StatusBadRequest, DuplicateNameMessage))
      ensures r.Error? ==> sweets == old(sweets) && nextId == old(nextId)
      ensures r.Ok? <==>
        AdminCheck(caller).None? && CheckNewSweet(req).None? && !NameTaken(old(sweets), req.name.value)
      ensures r.Ok? ==>
        && old(nextId) !in old(sweets)
        && r == Ok(StatusCreated, Stored(old(nextId), NewDocument(req)))
        && sweets == old(sweets)[old(nextId) := NewDocument(req)]
        && SweetValid(NewDocument(req))
      ensures TableValid(old(sweets)) ==> TableValid(sweets)
    {
      var denied := AdminCheck(caller);
      if denied.Some? {
        return Error(denied.value);
      }
      var invalid := CheckNewSweet(req);
      if invalid.Some? {
        return Error(invalid.value);
      }
      if NameTaken(sweets, req.name.value) {
        return Error(Failure(StatusBadRequest, DuplicateNameMessage));
      }
      var doc := NewDocument(req);
      var id := nextId;
      sweets := sweets[id := doc];
      nextId := nextId + 1;
      r := Ok(StatusCreated, Stored(id, doc));
    }

    /** `POST /:id/purchase` (after jwtAuthMiddleware, any role): one unit
        fewer, or 404 / 400 "Out of stock"; the save revalidates the whole
        record, so a record that an update left invalid gives 500. */
    method Purchase(id: SweetId) returns (r: Reply<StockReceipt>)
      requires Valid()
      modifies this
      ensures Valid() && nextId == old(nextId)
      ensures id !in old(sweets) ==> r == Error(SweetNotFound)
      ensures id in old(sweets) && old(sweets)[id].quantity <= 0 ==>
        r == Error(Failure(StatusBadRequest, OutOfStockMessage))
      ensures id in old(sweets) && old(sweets)[id].quantity > 0
              && !SweetValid(old(sweets)[id].(quantity := old(sweets)[id].quantity - 1)) ==>
        r == Error(InternalError)
      ensures r.Error? ==> sweets == old(sweets)
      ensures r.Ok? <==> id in old(sweets) && old(sweets)[id].quantity > 0
                         && SweetValid(old(sweets)[id].(quantity := old(sweets)[id].quantity - 1))
      ensures r.Ok? ==>
        && sweets == old(sweets)[id := old(sweets)[id].(quantity := old(sweets)[id].quantity - 1)]
        && r == Ok(StatusOk, StockReceipt("You purchased " + old(sweets)[id].name, sweets[id].quantity))
        && sweets[id].quantity >= 0
      ensures id in old(sweets) && SweetValid(old(sweets)[id]) && old(sweets)[id].quantity > 0 ==> r.Ok?
      ensures TableValid(old(sweets)) ==> TableValid(sweets)
    {
      if id !in sweets {
        return Error(SweetNotFound);
      }
      var sweet := sweets[id];
      if sweet.quantity <= 0 {
        return Error(Failure(StatusBadRequest, OutOfStockMessage));
      }
      sweet := sweet.(quantity := sweet.quantity - 1);
      if !SweetValid(sweet) {
        return Error(InternalError);
      }
      sweets := sweets[id := sweet];
      r := Ok(StatusOk, StockReceipt("You purchased " + sweet.name, sweet.quantity));
    }

    /** `POST /:id/restock` (after jwtAuthMiddleware): admin gate, 404, then
        the quantity grows by `Number(amount || 0)`; a result the validators
        refuse (a negative quantity, or a record an update left invalid)
        gives 500 at save. */
    method Restock(caller: Claims, id: SweetId, amount: Option<int>) returns (r: Reply<StockReceipt>)
      requires Valid()
      modifies this
      ensures Valid() && nextId == old(nextId)
      ensures AdminCheck(caller).Some? ==> r == Error(Forbidden)
      ensures AdminCheck(caller).None? && id !in old(sweets) ==> r == Error(SweetNotFound)
      ensures AdminCheck(caller).None? && id in old(sweets)
              && !SweetValid(old(sweets)[id].(quantity := old(sweets)[id].quantity + amount.GetOr(0))) ==>
        r == Error(InternalError)
      ensures r.Error? ==> sweets == old(sweets)
      ensures r.Ok? <==> AdminCheck(caller).None? && id in old(sweets)
                         && SweetValid(old(sweets)[id].(quantity := old(sweets)[id].quantity + amount.GetOr(0)))
      ensures r.Ok? ==>
        && sweets == old(sweets)[id := old(sweets)[id].(quantity := old(sweets)[id].quantity + amount.GetOr(0))]
        && r == Ok(StatusOk, StockReceipt("Restocked " + old(sweets)[id].name, sweets[id].quantity))
      ensures r.Ok? && amount.None? ==> sweets == old(sweets)
      ensures (AdminCheck(caller).None? && id in old(sweets) && SweetValid(old(sweets)[id])
               && amount.GetOr(0) >= 0) ==> r.Ok?
      ensures TableValid(old(sweets)) ==> TableValid(sweets)
    {
      var denied := AdminCheck(caller);
      if denied.Some? {
        return Error(denied.value);
      }
      if id !in sweets {
        return Error(SweetNotFound);
      }
      var sweet := sweets[id];
      sweet := sweet.(quantity := sweet.quantity + amount.GetOr(0));
      if !SweetValid(sweet) {
        return Error(InternalError);
      }
      sweets := sweets[id := sweet];
      r := Ok(StatusOk, StockReceipt("Restocked " + sweet.name, sweet.quantity));
    }

    /** `PUT /:id` (after jwtAuthMiddleware): admin gate, 404, then the patch
        is written as it is; only the unique index on name can refuse it
        (a duplicate key error, answered with 500). */
    method Update(caller: Claims, id: SweetId, patch: SweetPatch) returns (r: Reply<Sweet>)
      requires Valid()
      modifies this
      ensures Valid() && nextId == old(nextId)
      ensures AdminCheck(caller).Some? ==> r == Error(Forbidden)
      ensures AdminCheck(caller).None? && id !in old(sweets) ==> r == Error(SweetNotFound)
      ensures AdminCheck(caller).None? && id in old(sweets) && NameClash(old(sweets), id, patch) ==>
        r == Error(InternalError)
      ensures r.Error? ==> sweets == old(sweets)
      ensures r.Ok? <==> AdminCheck(caller).None? && id in old(sweets) && !NameClash(old(sweets), id, patch)
      ensures r.Ok? ==>
        && sweets == old(sweets)[id := ApplyPatch(old(sweets)[id], patch)]
        && r == Ok(StatusOk, sweets[id])
      ensures NamesUnique(old(sweets)) ==> NamesUnique(sweets)
    {
      var denied := AdminCheck(caller);
      if denied.Some? {
        return Error(denied.value);
      }
      if id !in sweets {
        return Error(SweetNotFound);
      }
      if NameClash(sweets, id, patch) {
        return Error(InternalError);
      }
      var updated := ApplyPatch(sweets[id], patch);
      sweets := sweets[id := updated];
      r := Ok(StatusOk, updated);
    }

    /** `DELETE /:id` (after jwtAuthMiddleware): admin gate, 404, then exactly
        that record goes. */
    method Delete(caller: Claims, id: SweetId) returns (r: Reply<string>)
      requires Valid()
      modifies this
      ensures Valid() && nextId == old(nextId)
      ensures AdminCheck(caller).Some? ==> r == Error(Forbidden)
      ensures AdminCheck(caller).None? && id !in old(sweets) ==> r == Error(SweetNotFound)
      ensures r.Error? ==> sweets == old(sweets)
      ensures r.Ok? <==> AdminCheck(caller).None? && id in old(sweets)
      ensures r.Ok? ==>
        && sweets == old(sweets) - {id}
        && r == Ok(StatusOk, DeletedMessage)
      ensures TableValid(old(sweets)) ==> TableValid(sweets)
    {
      var denied := AdminCheck(caller);
      if denied.Some? {
        return Error(denied.value);
      }
      if id !in sweets {
        return Error(SweetNotFound);
      }
      sweets := sweets - {id};
      r := Ok(StatusOk, DeletedMessage);
    }
  }
}
