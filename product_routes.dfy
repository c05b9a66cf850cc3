/** How the product router picks a GET handler, and what the by-id handler does
    with the path segment it is given. */
module ProductRoutes {
  import opened Common
  import JsArray
  import Products

  // ---------------------------------------------------------------------------
  // parseInt on a path segment

  predicate IsDigit(c: char) { '0' <= c <= '9' }

  /** A JavaScript number as `parseInt` can produce it: an integer or NaN. */
  datatype Number = Int(value: int) | NaN

  /** The longest prefix of `s` made of decimal digits. */
  function DigitPrefix(s: string): (r: string)
    ensures |r| <= |s| && r == s[..|r|]
    ensures forall i :: 0 <= i < |r| ==> IsDigit(r[i])
    ensures |r| < |s| ==> !IsDigit(s[|r|])
  {
    if |s| == 0 || !IsDigit(s[0]) then "" else [s[0]] + DigitPrefix(s[1..])
  }

  function DecimalValue(digits: string): nat
    requires forall i :: 0 <= i < |digits| ==> IsDigit(digits[i])
  {
    if |digits| == 0 then 0
    else
      var last := digits[|digits| - 1];
      assert IsDigit(last);
      DecimalValue(digits[..|digits| - 1]) * 10 + (last as int - '0' as int)
  }

  /** `parseInt(s)`: an optional sign, then as many decimal digits as there are;
      NaN when there is no digit. */
  function ParseInt(s: string): (r: Number)
    ensures r.NaN? <==> (var rest := if |s| > 0 && (s[0] == '-' || s[0] == '+') then s[1..] else s;
                         |rest| == 0 || !IsDigit(rest[0]))
  {
    var negative := |s| > 0 && s[0] == '-';
    var rest := if |s| > 0 && (s[0] == '-' || s[0] == '+') then s[1..] else s;
    var digits := DigitPrefix(rest);
    if |digits| == 0 then NaN
    else
      var magnitude: int := DecimalValue(digits);
      Int(if negative then -magnitude else magnitude)
  }

  /** The decimal rendering of a natural number, as it appears in a path. */
  function Decimal(n: nat): (r: string)
    ensures |r| > 0
    ensures forall i :: 0 <= i < |r| ==> IsDigit(r[i])
  {
    if n < 10 then [('0' as int + n) as char]
    else Decimal(n / 10) + [('0' as int + n % 10) as char]
  }

  lemma {:induction false} DecimalValueOfDecimal(n: nat)
    ensures DecimalValue(Decimal(n)) == n
  {
    var d := Decimal(n);
    if n >= 10 {
      DecimalValueOfDecimal(n / 10);
      assert d[..|d| - 1] == Decimal(n / 10);
    } else {
      assert d[..|d| - 1] == "";
    }
  }

  lemma {:induction false} DigitPrefixOfDigits(s: string)
    requires forall i :: 0 <= i < |s| ==> IsDigit(s[i])
    ensures DigitPrefix(s) == s
  {
    if |s| > 0 {
      DigitPrefixOfDigits(s[1..]);
    }
  }

  /** `parseInt` reads back the decimal rendering of every natural number. */
  lemma ParseIntOfDecimal(n: nat)
    ensures ParseInt(Decimal(n)) == Int(n)
  {
    DigitPrefixOfDigits(Decimal(n));
    DecimalValueOfDecimal(n);
  }

  // ---------------------------------------------------------------------------
  // GET /:id on the raw path segment

  /** `p.id === productId`: NaN is equal to nothing. */
  function IdIs(n: Number): Products.Product -> bool {
    (p: Products.Product) => n.Int? && p.id == n.value
  }

  lemma FindIdIs(s: seq<Products.Product>, n: Number)
    ensures n.Int? ==> JsArray.Find(s, IdIs(n)) == JsArray.Find(s, Products.WithId(n.value))
  {
    if n.Int? {
      JsArray.FindCongruent(s, IdIs(n), Products.WithId(n.value));
    }
  }

  /** The by-id handler on the path segment: parse it, then find the first product
      whose id is strictly equal to the parsed number. */
  function GetBySegment(s: seq<Products.Product>, segment: string): (r: Lookup<Products.Product>)
    ensures ParseInt(segment).NaN? ==> r == Lookup(NotFound, None)
    ensures ParseInt(segment).Int? ==> r == Products.GetById(s, ParseInt(segment).value)
  {
    var n := ParseInt(segment);
    var found := JsArray.Find(s, IdIs(n));
    FindIdIs(s, n);
    if found.None? then Lookup(NotFound, None) else Lookup(Ok, found)
  }

  // ---------------------------------------------------------------------------
  // Route order

  /** A GET path pattern below the router's mount point. */
  datatype Pattern = Root | Param | Literal(text: string)

  /** `/` matches only the empty path, `/:id` any single non-empty segment, a literal
      only itself. */
  predicate PatternMatches(pat: Pattern, path: string) {
    match pat
    case Root => path == ""
    case Param => path != "" && '/' !in path
    case Literal(t) => path == t
  }

  datatype GetHandler = ListAll | ById | SearchPage

  /** The GET routes in the order the router registers them. */
  const GetRoutes: seq<(Pattern, GetHandler)> :=
    [(Root, ListAll), (Param, ById), (Literal("search"), SearchPage)]

  function RouteMatches(path: string): ((Pattern, GetHandler)) -> bool {
    (route: (Pattern, GetHandler)) => PatternMatches(route.0, path)
  }

  /** The handler of the first registered route that matches, if any. */
  function RouteGet(path: string): (h: Option<GetHandler>)
    ensures h.None? <==> forall i :: 0 <= i < |GetRoutes| ==> !PatternMatches(GetRoutes[i].0, path)
    ensures h.Some? ==>
      exists i :: (&& 0 <= i < |GetRoutes| && PatternMatches(GetRoutes[i].0, path) && h.value == GetRoutes[i].1
                   && forall j :: 0 <= j < i ==> !PatternMatches(GetRoutes[j].0, path))
  {
    var k := JsArray.FindIndex(GetRoutes, RouteMatches(path));
    if k == -1 then None else Some(GetRoutes[k].1)
  }

  /** The search route is registered after `/:id`, which matches every path it
      would match, so no GET request ever reaches it. */
  lemma SearchIsShadowed(path: string)
    ensures RouteGet(path) != Some(SearchPage)
  {
    assert RouteMatches(path)(GetRoutes[2]) ==> RouteMatches(path)(GetRoutes[1]);
  }

  datatype GetResponse =
    | Listing(products: seq<Products.Product>)
    | One(lookup: Lookup<Products.Product>)
    | Page(result: Products.SearchResult)
    | Unrouted

  /** A GET request to the product router on the loaded collection: the empty path
      lists the collection, a single segment goes to the by-id handler, a path with
      more segments is not routed here, and the search handler never answers. */
  function HandleGet(s: seq<Products.Product>, path: string, q: Products.Query): (r: GetResponse)
    ensures path == "" ==> r == Listing(s)
    ensures path != "" && '/' !in path ==> r == One(GetBySegment(s, path))
    ensures r.Unrouted? <==> '/' in path
    ensures !r.Page?
  {
    SearchIsShadowed(path);
    assert '/' !in "search";
    match RouteGet(path)
    case None => Unrouted
    case Some(ListAll) => Listing(s)
    case Some(ById) => One(GetBySegment(s, path))
    case Some(SearchPage) => Page(Products.Search(s, q))
  }

  /** `GET /search` is answered by the by-id handler: `parseInt("search")` is NaN,
      which no id equals, so the answer is NotFound whatever the query. */
  lemma SearchPathIsNotFound(s: seq<Products.Product>, q: Products.Query)
    ensures HandleGet(s, "search", q) == One(Lookup(NotFound, None))
  {
    assert RouteGet("search") == Some(ById) by {
      assert PatternMatches(Param, "search");
      assert JsArray.FindIndex(GetRoutes, RouteMatches("search")) == 1;
    }
  }

  /** `GET /<decimal id>` answers what the by-id lookup of that id answers. */
  lemma GetByDecimalPath(s: seq<Products.Product>, n: nat, q: Products.Query)
    ensures HandleGet(s, Decimal(n), q) == One(Products.GetById(s, n))
  {
    ParseIntOfDecimal(n);
    var d := Decimal(n);
    forall i | 0 <= i < |d| ensures d[i] != '/' {
      assert IsDigit(d[i]);
    }
    assert PatternMatches(Param, d);
    assert !PatternMatches(Root, d);
    assert RouteGet(d) == Some(ById) by {
      assert JsArray.FindIndex(GetRoutes, RouteMatches(d)) == 1;
    }
  }
}
