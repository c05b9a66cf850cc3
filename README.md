# Users and products routers of a small JSON-file REST API, modelled in Dafny

The system is an Express server with two routers, `/api/users` and `/api/products`.
Each handler loads the whole collection from a JSON file. It then looks a record up by id,
checks the natural key, appends, rewrites or filters the collection, and saves the result.
The natural key is `name` for products and `email` for users. Products also have a search
handler: a case-insensitive name filter, minimum and maximum price filters, and then
pagination.

This project models those handler bodies. The file I/O is cut away: a handler receives the
collection as loaded and returns what it would save.

- `common.dfy` (`Common`): `Option`, the handler outcome `Status` (Ok / Created / NotFound /
  Conflict, sent as 200, 201, 404 and 400), and the reply records `Lookup` (status and record) and
  `Write` (status, record and the collection saved afterwards).
- `jsarray.dfy` (`JsArray`): the `Array.prototype` methods the handlers call (`find`,
  `findIndex`, `filter`, `slice` with JavaScript's negative-index rules), written as
  functions over sequences that take a callback `T -> bool`. Their lemmas cover order,
  multiplicity, fusion of successive filters and the page window.
- `text.dfy` (`Text`): ASCII `toLowerCase` and `includes`, with `includes` characterised by
  "occurs at some index".
- `products.dfy` (`Products`): `Product(id, name, price)`, the handlers as functions, and
  the class `ProductList`. `ProductList` holds the loaded array. Its `Create` pushes onto the
  array and its `Update` assigns the record's fields in place; both are proved equal to the
  pure outcome functions, and the lemmas are about those functions.
- `users.dfy` (`Users`): the same for `User(id, name, email)`, with the class `UserList`.
- `product_routes.dfy` (`ProductRoutes`): the order in which the product router registers
  its GET routes, and `parseInt` on the path segment.

Where the documented API contract and the code differ, the model follows the code:

- The search route is documented as reachable, but it is registered after `/:id`.
  Express runs the first matching route, so `GET /api/products/search` goes to the by-id
  handler. There `parseInt("search")` is NaN, no id equals NaN, and the answer is 404
  (`ProductRoutes.SearchIsShadowed`, `ProductRoutes.SearchPathIsNotFound`). The search body is still modelled as
  `Products.Search`, and its lemmas describe it.
- The update's conflict check skips every record carrying the requested id. It does not
  skip only the record it rewrites. With unique ids the natural key stays unique. If an id
  occurs twice, an update can create a duplicate name or email
  (`Products.UpdateWithRepeatedIdDuplicatesName`, `Users.UpdateWithRepeatedIdDuplicatesEmail`).
  Ids are documented as unique, but the code never checks that a new id is fresh, so ids
  are unique only if the id generator makes them so. The uniqueness lemmas for update
  therefore also assume unique ids.
- Get and update act on the first record holding the id (`find` and `findIndex`). Create
  looks only for an existing record with the same name or email, never for the id. Delete
  removes every record with the id.

## Model

| member | source | states |
|---|---|---|
| `JsArray.FindIndex` | routes/products.js:75 | the first index whose element satisfies the callback, or -1 exactly when no element does |
| `JsArray.Find` | routes/products.js:38 | the element at `findIndex`, or none exactly when `findIndex` is -1 |
| `JsArray.Filter` | routes/products.js:104 | the result is no longer than the input, and every kept element is from the input and satisfies the callback |
| `JsArray.FilterCount` | routes/products.js:104 | every satisfying element is kept exactly as often as it occurs, and every other element is dropped |
| `JsArray.FilterConcat` | routes/products.js:104 | filtering distributes over concatenation, so relative order is kept |
| `JsArray.FilterKeepsOrder` | routes/products.js:104 | two kept elements appear in the result in their original order |
| `JsArray.FilterKeepsPairwise` | routes/products.js:104 | a relation between every earlier and later element still holds after filtering |
| `JsArray.FilterFuse` | routes/products.js:119-125 | two filters in a row equal one filter with the conjunction of the callbacks |
| `JsArray.FilterShrinks` | routes/products.js:104 | filtering out an element makes the sequence strictly shorter |
| `JsArray.SliceIndex` | routes/products.js:129 | a negative relative index counts from the end and is clamped at 0; a non-negative one is clamped at the length |
| `JsArray.Slice` | routes/products.js:129 | the elements from the resolved start to the resolved end, so its length is their difference or 0; for 0 <= start <= end it is the range start..end clipped to the length |
| `JsArray.SliceWindow` | routes/products.js:127-129 | a window from a non-negative offset is that range clipped to the length and holds at most `count` elements |
| `Text.ToLower` | routes/products.js:116 | same length, no upper-case ASCII letter left, each character kept or lowered |
| `Text.ToLowerIdempotent` | routes/products.js:116 | lowering twice is lowering once |
| `Text.Includes` | routes/products.js:116 | `includes` holds exactly when the substring occurs at some index |
| `Products.IndexOfId` | routes/products.js:75 | the first position holding the id, or -1 exactly when no product has it |
| `Products.GetById` | routes/products.js:35-45 | NotFound exactly when no product has the id; otherwise Ok with the first product that has it |
| `Products.CreateOutcome` | routes/products.js:48-68 | Conflict, with the collection unchanged, exactly when the name is taken; otherwise Created, with `{id, name, price}` appended after the unchanged earlier records |
| `Products.CreateKeepsNamesUnique` | routes/products.js:53-64 | a create keeps product names unique |
| `Products.CreateKeepsIdsUnique` | routes/products.js:58-64 | a create with an unused id keeps ids unique |
| `Products.CreateThenGet` | routes/products.js:35-68 | getting the id just created returns the created record |
| `Products.UpdateOutcome` | routes/products.js:71-92 | NotFound for a missing id and Conflict for a name held by another id, both with the collection unchanged; otherwise only name and price of the first record with the id change, and the length, that record's id and all other records stay |
| `Products.UpdateKeepsNamesUnique` | routes/products.js:82-88 | with unique ids, an update keeps names unique |
| `Products.UpdateKeepsIdsUnique` | routes/products.js:87-88 | an update keeps ids unique |
| `Products.UpdateWithRepeatedIdDuplicatesName` | routes/products.js:82-88 | with an id held twice, a successful update can create a duplicate name |
| `Products.UpdateKeepingOwnName` | routes/products.js:82-85 | with unique names, keeping the record's own name is not a conflict |
| `Products.UpdateIdempotent` | routes/products.js:71-92 | repeating a successful update answers the same and saves the same collection |
| `Products.DeleteById` | routes/products.js:95-108 | NotFound, with the collection unchanged, exactly when no product has the id; otherwise no record with the id is left, the result is shorter, and every other record is kept as often as it occurred |
| `Products.DeleteItemsAreFiltered` | routes/products.js:95-107 | what a delete saves is the collection filtered on the id, whether or not the id was found |
| `Products.DeleteKeepsOrder` | routes/products.js:104 | deleting from `before + [x] + after` gives the delete of `before`, then `x` unless it has the id, then the delete of `after`, which fixes each kept record's position |
| `Products.DeleteKeepsNamesUnique` | routes/products.js:104 | a delete keeps names unique |
| `Products.DeleteKeepsIdsUnique` | routes/products.js:104 | a delete keeps ids unique |
| `Products.DeleteThenGet` | routes/products.js:95-104 | after a delete, getting the id is NotFound |
| `Products.Matching` | routes/products.js:115-125 | reference definition of the search filters in one pass; every element is from the collection and matches every filter given |
| `Products.MatchingIsFilter` | routes/products.js:115-125 | the reference equals one `filter` with the combined condition |
| `Products.ByName` | routes/products.js:115-117 | the name filter, applied only for a non-empty name, keeps exactly the products passing the name stage, in order |
| `Products.ByMinPrice` | routes/products.js:119-121 | the minimum price filter, applied only when given, keeps exactly the products passing the minimum stage, in order |
| `Products.ByMaxPrice` | routes/products.js:123-125 | the maximum price filter, applied only when given, keeps exactly the products passing the maximum stage, in order |
| `Products.Filtered` | routes/products.js:115-125 | the three filters applied in sequence keep exactly the matching products, in order |
| `Products.Search` | routes/products.js:111-137 | page and limit are echoed (1 and 10 when absent), `total` is the number of matching products, and the page holds no more than that, each from the collection and satisfying every filter given |
| `Products.SearchPage` | routes/products.js:127-135 | for page >= 1 and limit >= 0, the answer is page, limit, total and the matching products from (page-1)*limit, limit long, clipped, so at most `limit` of them |
| `Products.SearchSecondPageOfFive` | routes/products.js:127-134 | page 2 with limit 5 over 12 matches returns matches 5 to 9 and total 12 |
| `Products.NameContainsIgnoresCase` | routes/products.js:116 | lower-casing the query name does not change which products pass the name filter |
| `Products.SearchIgnoresQueryCase` | routes/products.js:113-136 | the search answers the same for a query name and its lower-cased form |
| `Products.ProductList.constructor` | routes/products.js:50 | the list holds the collection as loaded |
| `Products.ProductList.Create` | routes/products.js:48-68 | the status, the returned record and the array after the push are those of `CreateOutcome` on the array before |
| `Products.ProductList.Update` | routes/products.js:71-92 | the status, the returned record and the array after the in-place assignment are those of `UpdateOutcome` on the array before |
| `Users.IndexOfId` | routes/users.js:75 | the first position holding the id, or -1 exactly when no user has it |
| `Users.GetById` | routes/users.js:35-45 | NotFound exactly when no user has the id; otherwise Ok with the first user that has it |
| `Users.CreateOutcome` | routes/users.js:48-68 | Conflict, with the collection unchanged, exactly when the email is taken; otherwise Created, with `{id, name, email}` appended after the unchanged earlier records |
| `Users.CreateKeepsEmailsUnique` | routes/users.js:53-64 | a create keeps emails unique |
| `Users.CreateKeepsIdsUnique` | routes/users.js:58-64 | a create with an unused id keeps ids unique |
| `Users.CreateThenGet` | routes/users.js:35-68 | getting the id just created returns the created record |
| `Users.UpdateOutcome` | routes/users.js:71-92 | NotFound for a missing id and Conflict for an email held by another id, both with the collection unchanged; otherwise only name and email of the first record with the id change, and the length, that record's id and all other records stay |
| `Users.UpdateKeepsEmailsUnique` | routes/users.js:82-88 | with unique ids, an update keeps emails unique |
| `Users.UpdateKeepsIdsUnique` | routes/users.js:87-88 | an update keeps ids unique |
| `Users.UpdateWithRepeatedIdDuplicatesEmail` | routes/users.js:82-88 | with an id held twice, a successful update can create a duplicate email |
| `Users.UpdateKeepingOwnEmail` | routes/users.js:82-85 | with unique emails, keeping the record's own email is not a conflict |
| `Users.UpdateIdempotent` | routes/users.js:71-92 | repeating a successful update answers the same and saves the same collection |
| `Users.DeleteById` | routes/users.js:95-108 | NotFound, with the collection unchanged, exactly when no user has the id; otherwise no record with the id is left, the result is shorter, and every other record is kept as often as it occurred |
| `Users.DeleteItemsAreFiltered` | routes/users.js:95-107 | what a delete saves is the collection filtered on the id, whether or not the id was found |
| `Users.DeleteKeepsOrder` | routes/users.js:104 | deleting from `before + [x] + after` gives the delete of `before`, then `x` unless it has the id, then the delete of `after`, which fixes each kept user's position |
| `Users.DeleteKeepsEmailsUnique` | routes/users.js:104 | a delete keeps emails unique |
| `Users.DeleteKeepsIdsUnique` | routes/users.js:104 | a delete keeps ids unique |
| `Users.DeleteThenGet` | routes/users.js:95-104 | after a delete, getting the id is NotFound |
| `Users.UserList.constructor` | routes/users.js:50 | the list holds the collection as loaded |
| `Users.UserList.Create` | routes/users.js:48-68 | the status, the returned record and the array after the push are those of `CreateOutcome` on the array before |
| `Users.UserList.Update` | routes/users.js:71-92 | the status, the returned record and the array after the in-place assignment are those of `UpdateOutcome` on the array before |
| `ProductRoutes.DigitPrefix` | routes/products.js:36 | the longest prefix made of decimal digits |
| `ProductRoutes.ParseInt` | routes/products.js:36 | NaN exactly when no digit follows the optional sign |
| `ProductRoutes.ParseIntOfDecimal` | routes/products.js:36 | `parseInt` reads back the decimal rendering of every natural number |
| `ProductRoutes.GetBySegment` | routes/products.js:35-45 | a segment that parses to NaN is NotFound; one that parses to an integer gets what the by-id lookup gives |
| `ProductRoutes.RouteGet` | routes/products.js:28-111 | no handler exactly when no registered GET pattern matches; otherwise the handler of the first registered pattern that matches |
| `ProductRoutes.HandleGet` | routes/products.js:28-137 | the empty path lists the collection, a single segment gets the by-id answer for that segment, a path with more segments is not routed, and the search handler never answers |
| `ProductRoutes.SearchIsShadowed` | routes/products.js:35-111 | no GET path reaches the search handler, because `/:id` comes first |
| `ProductRoutes.SearchPathIsNotFound` | routes/products.js:35-111 | `GET /search` is answered NotFound by the by-id handler, whatever the query |
| `ProductRoutes.GetByDecimalPath` | routes/products.js:35-45 | `GET /<decimal id>` answers what the by-id lookup of that id gives |

## Left out

- File I/O in `getProducts`/`saveProducts` and `getUsers`/`saveUsers`: the file is created when missing, then read, parsed, stringified and written. A handler takes the loaded sequence and returns the sequence it would save.
- Malformed JSON in a data file and the catch-all error handler: the error handler module is not part of this model.
- `generateId`: not part of this model. The new id is a parameter. Id uniqueness is stated only on the condition that the id supplied is unused.
- `validateMiddleware`: not part of this model. Required fields are always present, because they are typed parameters.
- The API-key check and the rate limiter: middleware outside the handlers. The rate limiter is a third-party package.
- `GET /` of both routers returns the loaded collection unchanged. It appears only as the `Listing` answer of `ProductRoutes.HandleGet`.
- Error and confirmation message texts: replies carry a status and an optional record, not the message body.
- Query-string coercion: `parseFloat` on prices, string-to-number conversion of `page` and `limit`, and NaN from non-numeric parameters are not modelled. Query values are integers. `None` stands for an absent or empty `name`, `minPrice` or `maxPrice`, and for an absent `page` or `limit`. An empty `page` or `limit` is not modelled: the default does not apply to it, and the code answers an empty page with `page` as NaN.
- Prices are integers, not floating-point numbers.
- `toLowerCase` covers ASCII letters only, not Unicode case mapping.
- `ProductRoutes.ParseInt`: does not skip leading whitespace and does not read a `0x` hexadecimal prefix.
- Express path matching is reduced to one path below the router's mount point: `/` matches only the empty path, `/:id` any non-empty path without `/`, a literal only itself.
- Object identity: the record PUT returns is the same object as the one in the array. The model returns an equal value.
- Concurrent requests and lost updates between load and save are not modelled.
- Products.UpdateKeepsNamesUnique: also requires unique ids, because the conflict check skips every record with the requested id (see `UpdateWithRepeatedIdDuplicatesName`).
- Users.UpdateKeepsEmailsUnique: also requires unique ids, for the same reason (see `UpdateWithRepeatedIdDuplicatesEmail`).
