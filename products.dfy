/** The product router: lookup, create, update, delete and search over the loaded
    product collection. Loading and saving the JSON file are left to the caller: a
    handler gets the collection as loaded and answers with what it would save. */
module Products {
  import opened Common
  import JsArray
  import Text

  datatype Product = Product(id: int, name: string, price: int)

  // ---------------------------------------------------------------------------
  // Facts about a collection

  predicate HasId(s: seq<Product>, id: int) {
    exists i :: 0 <= i < |s| && s[i].id == id
  }

  predicate NameTaken(s: seq<Product>, name: string) {
    exists i :: 0 <= i < |s| && s[i].name == name
  }

  /** Some record other than those with id `id` is called `name`. */
  predicate NameTakenByOther(s: seq<Product>, name: string, id: int) {
    exists i :: 0 <= i < |s| && s[i].name == name && s[i].id != id
  }

  /** The natural key: no two products share a name. */
  predicate NamesUnique(s: seq<Product>) {
    forall i, j :: 0 <= i < j < |s| ==> s[i].name != s[j].name
  }

  predicate IdsUnique(s: seq<Product>) {
    forall i, j :: 0 <= i < j < |s| ==> s[i].id != s[j].id
  }

  // ---------------------------------------------------------------------------
  // The callbacks the handlers pass to find, findIndex and filter

  function WithId(id: int): Product -> bool { (p: Product) => p.id == id }
  function WithoutId(id: int): Product -> bool { (p: Product) => p.id != id }
  function WithName(name: string): Product -> bool { (p: Product) => p.name == name }
  function NameClash(name: string, id: int): Product -> bool {
    (p: Product) => p.name == name && p.id != id
  }

  /** `products.findIndex(p => p.id === id)`: the first position holding that id, or -1. */
  function IndexOfId(s: seq<Product>, id: int): (k: int)
    ensures -1 <= k < |s|
    ensures k == -1 <==> !HasId(s, id)
    ensures 0 <= k ==> s[k].id == id && forall j :: 0 <= j < k ==> s[j].id != id
  {
    JsArray.FindIndex(s, WithId(id))
  }

  /** The first position holding an id is the only position with both properties. */
  lemma FirstIndexUnique(s: seq<Product>, id: int, k: int)
    requires 0 <= k < |s| && s[k].id == id
    requires forall j :: 0 <= j < k ==> s[j].id != id
    ensures IndexOfId(s, id) == k
  {
    assert HasId(s, id);
  }

  // ---------------------------------------------------------------------------
  // GET /:id

  /** The first product with the requested id, or NotFound when none has it. */
  function GetById(s: seq<Product>, id: int): (r: Lookup<Product>)
    ensures r.status == Ok || r.status == NotFound
    ensures r.status == NotFound <==> !HasId(s, id)
    ensures r.status == NotFound ==> r.record == None
    ensures r.status == Ok ==> r.record == Some(s[IndexOfId(s, id)])
  {
    var found := JsArray.Find(s, WithId(id));
    if found.None? then Lookup(NotFound, None) else Lookup(Ok, found)
  }

  // ---------------------------------------------------------------------------
  // POST /

  /** Creating with a name already in the collection is a conflict that saves
      nothing; otherwise exactly one record is appended and returned. */
  function CreateOutcome(s: seq<Product>, id: int, name: string, price: int): (r: Write<Product>)
    ensures r.status == Created || r.status == Conflict
    ensures r.status == Conflict <==> NameTaken(s, name)
    ensures r.status == Conflict ==> r.items == s && r.record == None
    ensures r.status == Created ==>
      && r.record == Some(Product(id, name, price))
      && |r.items| == |s| + 1
      && r.items[|s|] == Product(id, name, price)
      && forall i :: 0 <= i < |s| ==> r.items[i] == s[i]
  {
    if JsArray.Find(s, WithName(name)).Some? then
      Write(Conflict, None, s)
    else
      var p := Product(id, name, price);
      Write(Created, Some(p), s + [p])
  }

  lemma CreateKeepsNamesUnique(s: seq<Product>, id: int, name: string, price: int)
    requires NamesUnique(s)
    ensures NamesUnique(CreateOutcome(s, id, name, price).items)
  {
    var r := CreateOutcome(s, id, name, price);
    if r.status == Created {
      forall i, j | 0 <= i < j < |r.items| ensures r.items[i].name != r.items[j].name {
        if j == |s| {
          assert r.items[i] == s[i];
        }
      }
    }
  }

  /** Ids stay unique when the id handed to the create is not in use. */
  lemma CreateKeepsIdsUnique(s: seq<Product>, id: int, name: string, price: int)
    requires IdsUnique(s) && !HasId(s, id)
    ensures IdsUnique(CreateOutcome(s, id, name, price).items)
  {
    var r := CreateOutcome(s, id, name, price);
    if r.status == Created {
      forall i, j | 0 <= i < j < |r.items| ensures r.items[i].id != r.items[j].id {
        if j == |s| {
          assert r.items[i] == s[i];
        }
      }
    }
  }

  /** Creating with an unused id and then getting that id yields the created record. */
  lemma CreateThenGet(s: seq<Product>, id: int, name: string, price: int)
    requires !HasId(s, id) && !NameTaken(s, name)
    ensures var r := CreateOutcome(s, id, name, price);
      GetById(r.items, id) == Lookup(Ok, Some(Product(id, name, price)))
  {
    var r := CreateOutcome(s, id, name, price);
    FirstIndexUnique(r.items, id, |s|);
  }

  // ---------------------------------------------------------------------------
  // PUT /:id

  /** Updating a missing id is NotFound; taking a name another id holds is a
      Conflict; both save nothing. Otherwise only name and price of the first record
      with that id change. */
  function UpdateOutcome(s: seq<Product>, id: int, name: string, price: int): (r: Write<Product>)
    ensures r.status == Ok || r.status == NotFound || r.status == Conflict
    ensures r.status == NotFound <==> !HasId(s, id)
    ensures r.status == Conflict <==> HasId(s, id) && NameTakenByOther(s, name, id)
    ensures r.status != Ok ==> r.items == s && r.record == None
    ensures r.status == Ok ==>
      var k := IndexOfId(s, id);
      && |r.items| == |s|
      && r.items[k] == Product(s[k].id, name, price)
      && r.record == Some(r.items[k])
      && forall j :: 0 <= j < |s| && j != k ==> r.items[j] == s[j]
  {
    var k := JsArray.FindIndex(s, WithId(id));
    if k == -1 then
      Write(NotFound, None, s)
    else if JsArray.Find(s, NameClash(name, id)).Some? then
      Write(Conflict, None, s)
    else
      var items := s[k := s[k].(name := name, price := price)];
      Write(Ok, Some(items[k]), items)
  }

  /** With unique ids, a successful update keeps the names unique. */
  lemma UpdateKeepsNamesUnique(s: seq<Product>, id: int, name: string, price: int)
    requires NamesUnique(s) && IdsUnique(s)
    ensures NamesUnique(UpdateOutcome(s, id, name, price).items)
  {
    var r := UpdateOutcome(s, id, name, price);
    if r.status == Ok {
      var k := IndexOfId(s, id);
      forall i, j | 0 <= i < j < |r.items| ensures r.items[i].name != r.items[j].name {
        if i == k {
          assert s[j].id != id;
        } else if j == k {
          assert s[i].id != id;
        }
      }
    }
  }

  lemma UpdateKeepsIdsUnique(s: seq<Product>, id: int, name: string, price: int)
    requires IdsUnique(s)
    ensures IdsUnique(UpdateOutcome(s, id, name, price).items)
  {
    var r := UpdateOutcome(s, id, name, price);
    if r.status == Ok {
      var k := IndexOfId(s, id);
      forall i, j | 0 <= i < j < |r.items| ensures r.items[i].id != r.items[j].id {
        if i == k || j == k {
          assert r.items[k].id == s[k].id;
        }
      }
    }
  }

  /** Without unique ids the name check lets a duplicate name in: the check skips
      every record carrying the id, not only the one that is rewritten. */
  lemma UpdateWithRepeatedIdDuplicatesName()
    ensures var s := [Product(5, "a", 1), Product(5, "b", 2)];
      && NamesUnique(s)
      && UpdateOutcome(s, 5, "b", 3).status == Ok
      && !NamesUnique(UpdateOutcome(s, 5, "b", 3).items)
  {
    var s := [Product(5, "a", 1), Product(5, "b", 2)];
    FirstIndexUnique(s, 5, 0);
    var r := UpdateOutcome(s, 5, "b", 3);
    assert r.items[0].name == r.items[1].name;
  }

  /** Keeping the record's own name is not a conflict. */
  lemma UpdateKeepingOwnName(s: seq<Product>, id: int, price: int)
    requires NamesUnique(s) && HasId(s, id)
    ensures UpdateOutcome(s, id, s[IndexOfId(s, id)].name, price).status == Ok
  {
    var k := IndexOfId(s, id);
    forall i | 0 <= i < |s| && i != k ensures s[i].name != s[k].name {
    }
    assert !NameTakenByOther(s, s[k].name, id);
  }

  /** Repeating a successful update saves the same collection and answers the same. */
  lemma UpdateIdempotent(s: seq<Product>, id: int, name: string, price: int)
    requires UpdateOutcome(s, id, name, price).status == Ok
    ensures var r := UpdateOutcome(s, id, name, price);
      UpdateOutcome(r.items, id, name, price) == r
  {
    var r := UpdateOutcome(s, id, name, price);
    var k := IndexOfId(s, id);
    FirstIndexUnique(r.items, id, k);
    forall i | 0 <= i < |r.items| && i != k ensures r.items[i] == s[i] {
    }
    assert !NameTakenByOther(r.items, name, id);
    var r2 := UpdateOutcome(r.items, id, name, price);
    assert r2.items == r.items;
  }

  // ---------------------------------------------------------------------------
  // DELETE /:id

  /** Deleting a missing id is NotFound and saves nothing; otherwise every record with
      that id is removed and every other record is kept, as often as it occurred. */
  function DeleteById(s: seq<Product>, id: int): (r: Write<Product>)
    ensures r.status == Ok || r.status == NotFound
    ensures r.status == NotFound <==> !HasId(s, id)
    ensures r.record == None
    ensures r.status == NotFound ==> r.items == s
    ensures r.status == Ok ==> !HasId(r.items, id) && |r.items| < |s|
    ensures r.status == Ok ==> forall x :: x in r.items ==> x in s
    ensures r.status == Ok ==> forall x :: x in s && x.id != id ==> multiset(r.items)[x] == multiset(s)[x]
  {
    if JsArray.Find(s, WithId(id)).None? then
      Write(NotFound, None, s)
    else
      var kept := JsArray.Filter(s, WithoutId(id));
      JsArray.FilterShrinks(s, WithoutId(id), IndexOfId(s, id));
      assert forall i :: 0 <= i < |kept| ==> kept[i] in kept;
      assert forall x :: x in s ==> multiset(kept)[x] == if WithoutId(id)(x) then multiset(s)[x] else 0 by {
        forall x | x in s {
          JsArray.FilterCount(s, WithoutId(id), x);
        }
      }
      Write(Ok, None, kept)
  }

  /** What a delete saves is the collection with every record of the id dropped,
      whether or not the id was found. */
  lemma DeleteItemsAreFiltered(s: seq<Product>, id: int)
    ensures DeleteById(s, id).items == JsArray.Filter(s, WithoutId(id))
  {
    if !HasId(s, id) {
      JsArray.FilterAll(s, WithoutId(id));
    }
  }

  /** A delete keeps every other record exactly where its neighbours leave it: the
      records before a given record, that record unless it has the id, and the
      records after it, each part filtered on its own. */
  lemma DeleteKeepsOrder(before: seq<Product>, x: Product, after: seq<Product>, id: int)
    ensures DeleteById(before + [x] + after, id).items ==
      DeleteById(before, id).items + (if x.id == id then [] else [x]) + DeleteById(after, id).items
  {
    var p := WithoutId(id);
    DeleteItemsAreFiltered(before + [x] + after, id);
    DeleteItemsAreFiltered(before, id);
    DeleteItemsAreFiltered(after, id);
    JsArray.FilterConcat(before + [x], after, p);
    JsArray.FilterConcat(before, [x], p);
    assert JsArray.Filter([x], p) == (if x.id == id then [] else [x]) by {
      assert [x][1..] == [];
    }
  }

  /** Deleting keeps the names unique. */
  lemma DeleteKeepsNamesUnique(s: seq<Product>, id: int)
    requires NamesUnique(s)
    ensures NamesUnique(DeleteById(s, id).items)
  {
    if HasId(s, id) {
      var r := DeleteById(s, id).items;
      var distinct := (a: Product, b: Product) => a.name != b.name;
      forall i, j | 0 <= i < j < |s| ensures distinct(s[i], s[j]) {
      }
      JsArray.FilterKeepsPairwise(s, WithoutId(id), distinct);
      forall i, j | 0 <= i < j < |r| ensures r[i].name != r[j].name {
        assert distinct(r[i], r[j]);
      }
    }
  }

  lemma DeleteKeepsIdsUnique(s: seq<Product>, id: int)
    requires IdsUnique(s)
    ensures IdsUnique(DeleteById(s, id).items)
  {
    if HasId(s, id) {
      var r := DeleteById(s, id).items;
      var distinct := (a: Product, b: Product) => a.id != b.id;
      forall i, j | 0 <= i < j < |s| ensures distinct(s[i], s[j]) {
      }
      JsArray.FilterKeepsPairwise(s, WithoutId(id), distinct);
      forall i, j | 0 <= i < j < |r| ensures r[i].id != r[j].id {
        assert distinct(r[i], r[j]);
      }
    }
  }

  /** After a successful delete the id is gone: getting it is NotFound. */
  lemma DeleteThenGet(s: seq<Product>, id: int)
    ensures GetById(DeleteById(s, id).items, id).status == NotFound
  {
  }

  // ---------------------------------------------------------------------------
  // GET /search

  /** The query string, with prices and paging values already numbers. For `name`,
      `minPrice` and `maxPrice`, `None` stands for a parameter that is absent or empty
      (both are falsy); for `page` and `limit`, whose defaults apply only when they are
      absent, `None` stands for an absent parameter. */
  datatype Query = Query(
    name: Option<string>,
    minPrice: Option<int>,
    maxPrice: Option<int>,
    page: Option<int>,
    limit: Option<int>)

  datatype SearchResult = SearchResult(page: int, limit: int, total: int, products: seq<Product>)

  function NameContains(name: string): Product -> bool {
    (p: Product) => Text.Includes(Text.ToLower(p.name), Text.ToLower(name))
  }
  function PriceAtLeast(min: int): Product -> bool { (p: Product) => p.price >= min }
  function PriceAtMost(max: int): Product -> bool { (p: Product) => p.price <= max }

  /** The name filter, applied only when the query names a non-empty string: it keeps
      exactly the products that pass the name stage, in order. */
  function ByName(s: seq<Product>, q: Query): (r: seq<Product>)
    ensures r == JsArray.Filter(s, NameStage(q))
  {
    if q.name.Some? && q.name.value != "" then
      JsArray.FilterCongruent(s, NameContains(q.name.value), NameStage(q));
      JsArray.Filter(s, NameContains(q.name.value))
    else
      JsArray.FilterAll(s, NameStage(q));
      s
  }

  /** The minimum price filter, applied only when the query gives one. */
  function ByMinPrice(s: seq<Product>, q: Query): (r: seq<Product>)
    ensures r == JsArray.Filter(s, MinStage(q))
  {
    if q.minPrice.Some? then
      JsArray.FilterCongruent(s, PriceAtLeast(q.minPrice.value), MinStage(q));
      JsArray.Filter(s, PriceAtLeast(q.minPrice.value))
    else
      JsArray.FilterAll(s, MinStage(q));
      s
  }

  /** The maximum price filter, applied only when the query gives one. */
  function ByMaxPrice(s: seq<Product>, q: Query): (r: seq<Product>)
    ensures r == JsArray.Filter(s, MaxStage(q))
  {
    if q.maxPrice.Some? then
      JsArray.FilterCongruent(s, PriceAtMost(q.maxPrice.value), MaxStage(q));
      JsArray.Filter(s, PriceAtMost(q.maxPrice.value))
    else
      JsArray.FilterAll(s, MaxStage(q));
      s
  }

  /** The three filters in the order they are applied keep exactly the matching
      products, in collection order. */
  function Filtered(s: seq<Product>, q: Query): (r: seq<Product>)
    ensures r == Matching(s, q)
  {
    MatchesInStages(q);
    JsArray.FilterFuse(s, NameStage(q), MinStage(q), NameMinStage(q));
    JsArray.FilterFuse(s, NameMinStage(q), MaxStage(q), MatchesQuery(q));
    MatchingIsFilter(s, q);
    ByMaxPrice(ByMinPrice(ByName(s, q), q), q)
  }

  /** The search handler body: filter, then cut the page out of what is left. The
      answer echoes page and limit (1 and 10 when absent), `total` counts every
      matching product, and the page holds at most that many, all matching. */
  function Search(s: seq<Product>, q: Query): (r: SearchResult)
    ensures r.page == q.page.GetOr(1) && r.limit == q.limit.GetOr(10)
    ensures r.total == |Matching(s, q)|
    ensures |r.products| <= r.total
    ensures forall x :: x in r.products ==> x in s && Matches(q, x)
  {
    var filtered := Filtered(s, q);
    var page := q.page.GetOr(1);
    var limit := q.limit.GetOr(10);
    var start := (page - 1) * limit;
    var end := start + limit;
    SearchResult(page, limit, |filtered|, JsArray.Slice(filtered, start, end))
  }

  /** A product satisfies every filter the query supplies. */
  predicate Matches(q: Query, p: Product) {
    && (q.name.None? || q.name.value == "" || Text.Includes(Text.ToLower(p.name), Text.ToLower(q.name.value)))
    && (q.minPrice.None? || p.price >= q.minPrice.value)
    && (q.maxPrice.None? || p.price <= q.maxPrice.value)
  }

  /** Reference definition: the matching products in collection order, in one pass. */
  function Matching(s: seq<Product>, q: Query): (r: seq<Product>)
    ensures forall x :: x in r ==> x in s && Matches(q, x)
  {
    if |s| == 0 then []
    else (if Matches(q, s[0]) then [s[0]] else []) + Matching(s[1..], q)
  }

  function MatchesQuery(q: Query): Product -> bool { (p: Product) => Matches(q, p) }
  function NameStage(q: Query): Product -> bool {
    (p: Product) => q.name.None? || q.name.value == "" || NameContains(q.name.value)(p)
  }
  function MinStage(q: Query): Product -> bool {
    (p: Product) => q.minPrice.None? || PriceAtLeast(q.minPrice.value)(p)
  }
  function MaxStage(q: Query): Product -> bool {
    (p: Product) => q.maxPrice.None? || PriceAtMost(q.maxPrice.value)(p)
  }
  function NameMinStage(q: Query): Product -> bool {
    (p: Product) => NameStage(q)(p) && MinStage(q)(p)
  }

  /** Matching a query is passing its name, minimum and maximum stages. */
  lemma MatchesInStages(q: Query)
    ensures forall x :: NameMinStage(q)(x) == (NameStage(q)(x) && MinStage(q)(x))
    ensures forall x :: MatchesQuery(q)(x) == (NameMinStage(q)(x) && MaxStage(q)(x))
  {
    forall x: Product ensures MatchesQuery(q)(x) == (NameMinStage(q)(x) && MaxStage(q)(x)) {
      if q.name.Some? && q.name.value != "" {
        assert NameContains(q.name.value)(x) == Text.Includes(Text.ToLower(x.name), Text.ToLower(q.name.value));
      }
      if q.minPrice.Some? {
        assert PriceAtLeast(q.minPrice.value)(x) == (x.price >= q.minPrice.value);
      }
      if q.maxPrice.Some? {
        assert PriceAtMost(q.maxPrice.value)(x) == (x.price <= q.maxPrice.value);
      }
      assert MatchesQuery(q)(x) == Matches(q, x);
      assert NameStage(q)(x) == (q.name.None? || q.name.value == "" || Text.Includes(Text.ToLower(x.name), Text.ToLower(q.name.value)));
      assert MinStage(q)(x) == (q.minPrice.None? || x.price >= q.minPrice.value);
      assert MaxStage(q)(x) == (q.maxPrice.None? || x.price <= q.maxPrice.value);
      assert NameMinStage(q)(x) == (NameStage(q)(x) && MinStage(q)(x));
    }
  }

  lemma {:induction false} MatchingIsFilter(s: seq<Product>, q: Query)
    ensures Matching(s, q) == JsArray.Filter(s, MatchesQuery(q))
  {
    if |s| > 0 {
      MatchingIsFilter(s[1..], q);
    }
  }

  /** What `Search` answers, in terms of the filtered products. */
  lemma SearchShape(s: seq<Product>, q: Query)
    ensures var page, limit := q.page.GetOr(1), q.limit.GetOr(10);
      var start := (page - 1) * limit;
      Search(s, q) == SearchResult(page, limit, |Filtered(s, q)|, JsArray.Slice(Filtered(s, q), start, start + limit))
  {
  }

  /** For a page from 1 and a limit from 0, the page is the slice of the matching
      products from (page-1)*limit, limit long, clipped to their number. */
  lemma SearchPage(s: seq<Product>, q: Query)
    requires q.page.GetOr(1) >= 1 && q.limit.GetOr(10) >= 0
    ensures var page, limit, m := q.page.GetOr(1), q.limit.GetOr(10), Matching(s, q);
      var start := (page - 1) * limit;
      && 0 <= start
      && Search(s, q) == SearchResult(page, limit, |m|, m[Min(start, |m|)..Min(start + limit, |m|)])
      && |Search(s, q).products| <= limit
  {
    var page, limit, m := q.page.GetOr(1), q.limit.GetOr(10), Matching(s, q);
    var start := (page - 1) * limit;
    SearchShape(s, q);
    OffsetNonNegative(page - 1, limit);
    JsArray.SliceWindow(m, start, limit);
  }

  lemma OffsetNonNegative(pages: int, limit: int)
    requires pages >= 0 && limit >= 0
    ensures pages * limit >= 0
  {
  }

  /** Page 2 with limit 5 over 12 matches holds the matches at indices 5 to 9. */
  lemma SearchSecondPageOfFive(s: seq<Product>, q: Query)
    requires |Matching(s, q)| == 12 && q.page == Some(2) && q.limit == Some(5)
    ensures Search(s, q).total == 12
    ensures Search(s, q).products == Matching(s, q)[5..10]
  {
    SearchPage(s, q);
  }

  /** Lower-casing the query's name does not change which products pass it. */
  lemma NameContainsIgnoresCase(s: seq<Product>, name: string)
    ensures JsArray.Filter(s, NameContains(name)) == JsArray.Filter(s, NameContains(Text.ToLower(name)))
  {
    Text.ToLowerIdempotent(name);
    JsArray.FilterCongruent(s, NameContains(name), NameContains(Text.ToLower(name)));
  }

  /** The name filter ignores the case of the query. */
  lemma SearchIgnoresQueryCase(s: seq<Product>, q: Query, name: string)
    ensures Search(s, q.(name := Some(name))) == Search(s, q.(name := Some(Text.ToLower(name))))
  {
    var q1, q2 := q.(name := Some(name)), q.(name := Some(Text.ToLower(name)));
    NameContainsIgnoresCase(s, name);
    assert |Text.ToLower(name)| == |name|;
    assert ByName(s, q1) == ByName(s, q2);
    assert ByMinPrice(ByName(s, q1), q1) == ByMinPrice(ByName(s, q2), q2);
    assert Filtered(s, q1) == Filtered(s, q2);
    assert q1.page == q2.page && q1.limit == q2.limit;
    SearchDependsOnFiltered(s, q1, q2);
  }

  lemma SearchDependsOnFiltered(s: seq<Product>, q1: Query, q2: Query)
    requires Filtered(s, q1) == Filtered(s, q2) && q1.page == q2.page && q1.limit == q2.limit
    ensures Search(s, q1) == Search(s, q2)
  {
  }

  // ---------------------------------------------------------------------------
  // The loaded product array, which POST and PUT change in place

  class ProductList {
    var products: seq<Product>

    /** The collection as `getProducts` loaded it. */
    constructor (loaded: seq<Product>)
      ensures products == loaded
    {
      products := loaded;
    }

    /** POST /: rejects a taken name, else pushes the new record. */
    method Create(id: int, name: string, price: int) returns (status: Status, created: Option<Product>)
      modifies this
      ensures Write(status, created, products) == CreateOutcome(old(products), id, name, price)
    {
      var existing := JsArray.Find(products, WithName(name));
      if existing.Some? {
        return Conflict, None;
      }
      var p := Product(id, name, price);
      products := products + [p];
      return Created, Some(p);
    }

    /** PUT /:id: finds the index, rejects a name another id holds, else assigns the
        record's name and price in place. */
    method Update(id: int, name: string, price: int) returns (status: Status, updated: Option<Product>)
      modifies this
      ensures Write(status, updated, products) == UpdateOutcome(old(products), id, name, price)
    {
      var k := JsArray.FindIndex(products, WithId(id));
      if k == -1 {
        return NotFound, None;
      }
      var existing := JsArray.Find(products, NameClash(name, id));
      if existing.Some? {
        return Conflict, None;
      }
      products := products[k := products[k].(name := name)];
      products := products[k := products[k].(price := price)];
      return Ok, Some(products[k]);
    }
  }
}
