/** The products collection of app/api/products/route.js: a process-wide
    list of records, a filtering list handler and a create handler that
    validates its input and appends. */
module Products {
  import opened Values
  import opened Text
  import opened Sequences

  /** A stored product. `name` keeps whatever JSON value the request
      supplied; `price` has passed the positive-number check. */
  datatype Product = Product(id: int, name: Value, price: real)

  /** The records the collection holds when the process starts, numbered
      by position as the create handler numbers them. */
  function Seed(): (r: seq<Product>)
    ensures |r| == 3 && forall i :: 0 <= i < |r| ==> r[i].id == i + 1 && r[i].price > 0.0
  {
    [ Product(1, Str("Laptop"), 1200.0),
      Product(2, Str("Mouse"), 25.0),
      Product(3, Str("Teclado"), 50.0) ]
  }

  // ---------------------------------------------------------------- listing

  /** Query parameters of the list handler. A bound is `None` when its
      parameter is missing or empty, otherwise what `parseFloat` made of it;
      an empty `name` means no name filter. */
  datatype ProductQuery = ProductQuery(minPrice: Option<Parsed>, maxPrice: Option<Parsed>, name: string)

  const NoFilters := ProductQuery(None, None, "")

  predicate InPriceRange(p: Product, q: ProductQuery)
  {
    (q.minPrice.Some? ==> AtLeast(p.price, q.minPrice.value)) &&
    (q.maxPrice.Some? ==> AtMost(p.price, q.maxPrice.value))
  }

  /** The name test of the list handler; calling `toLowerCase` on a name that
      is not a string throws. */
  function NameTest(p: Product, term: string): Option<bool>
  {
    if p.name.Str? then Some(Mentions(p.name.s, term)) else None
  }

  /** A product is listed exactly when it passes every active filter. */
  predicate Matches(p: Product, q: ProductQuery)
  {
    InPriceRange(p, q) && (q.name != "" ==> p.name.Str? && Mentions(p.name.s, q.name))
  }

  /** The two price filters of the chain, each applied only when its bound
      was given. */
  function PriceFiltered(products: seq<Product>, q: ProductQuery): (r: seq<Product>)
    ensures IsSubsequence(r, products)
    ensures forall p :: p in r <==> p in products && InPriceRange(p, q)
    ensures forall p :: multiset(r)[p] == if InPriceRange(p, q) then multiset(products)[p] else 0
    ensures q.minPrice.None? && q.maxPrice.None? ==> r == products
  {
    var byMin := match q.minPrice
      case None => products
      case Some(lo) => Filter(products, (p: Product) => AtLeast(p.price, lo));
    assert IsSubsequence(byMin, products) by {
      if q.minPrice.None? { SubsequenceReflexive(products); }
    }
    var byMax := match q.maxPrice
      case None => byMin
      case Some(hi) => Filter(byMin, (p: Product) => AtMost(p.price, hi));
    assert IsSubsequence(byMax, products) by {
      if q.maxPrice.Some? { SubsequenceTransitive(byMax, byMin, products); }
    }
    byMax
  }

  /** The price filters followed by the name filter, which throws on a
      remaining product whose name is not a string. */
  function PriceAndNameFiltered(products: seq<Product>, q: ProductQuery): (r: Option<seq<Product>>)
    ensures r.None? <==> q.name != "" && exists p :: p in products && InPriceRange(p, q) && !p.name.Str?
    ensures r.Some? ==> IsSubsequence(r.value, products)
    ensures r.Some? ==> forall p :: p in r.value <==> p in products && Matches(p, q)
    ensures r.Some? ==> forall p :: multiset(r.value)[p] == if Matches(p, q) then multiset(products)[p] else 0
    ensures q.name == "" ==> r == Some(PriceFiltered(products, q))
  {
    var priced := PriceFiltered(products, q);
    if q.name == "" then Some(priced)
    else
      var byName := TryFilter(priced, (p: Product) => NameTest(p, q.name));
      if byName.None? then
        assert exists p :: p in products && InPriceRange(p, q) && !p.name.Str? by {
          var i :| 0 <= i < |priced| && NameTest(priced[i], q.name).None?;
          assert priced[i] in priced;
        }
        None
      else
        assert forall p :: p in products && InPriceRange(p, q) ==> p.name.Str? by {
          forall p | p in products && InPriceRange(p, q)
            ensures p.name.Str?
          {
            var i :| 0 <= i < |priced| && priced[i] == p;
          }
        }
        SubsequenceTransitive(byName.value, priced, products);
        byName
  }

  /** GET: the filter chain over a copy of the collection. It throws when the
      name filter meets a record, still in the running after the price
      filters, whose name is not a string. */
  function ListProducts(products: seq<Product>, q: ProductQuery): (r: Listing<Product>)
    ensures r.Crashed? <==> q.name != "" && exists p :: p in products && InPriceRange(p, q) && !p.name.Str?
    ensures r.Listed? ==> IsSubsequence(r.items, products)
    ensures r.Listed? ==> forall p :: p in r.items <==> p in products && Matches(p, q)
    ensures r.Listed? ==> forall p :: multiset(r.items)[p] == if Matches(p, q) then multiset(products)[p] else 0
    ensures q == NoFilters ==> r == Listed(products)
  {
    match PriceAndNameFiltered(products, q)
    case None => Crashed
    case Some(kept) => Listed(kept)
  }

  // -------------------------------------------------------------- creation

  /** The fields of a request body the create handler reads; `None` is
      `undefined`. */
  datatype ProductBody = ProductBody(name: Option<Value>, price: Option<Value>)

  /** Why a request was turned down with status 400. */
  datatype Reason = MissingFields | InvalidPrice

  datatype ProductOutcome =
    | Created(product: Product)   // 201 with the new record
    | ValidationError(reason: Reason)
    | MalformedRequest

  function Status(r: ProductOutcome): int
  {
    if r.Created? then 201 else 400
  }

  function Message(r: ProductOutcome): string
  {
    match r
    case ValidationError(MissingFields) => "Los campos name y price son requeridos"
    case ValidationError(InvalidPrice) => "El precio debe ser un número positivo"
    case MalformedRequest => "Error al procesar la solicitud"
    case Created(_) => ""
  }

  class ProductStore {
    var products: seq<Product>

    /** Every stored price passed the positive-number check. */
    ghost predicate Valid()
      reads this
    {
      forall p :: p in products ==> p.price > 0.0
    }

    constructor ()
      ensures Valid() && products == Seed()
    {
      products := Seed();
    }

    /** GET /products */
    method List(q: ProductQuery) returns (r: Listing<Product>)
      ensures r == ListProducts(products, q)
    {
      r := ListProducts(products, q);
    }

    /** POST /products: validate, then append a record numbered one past the
        current length. */
    method Create(request: Request<ProductBody>) returns (r: ProductOutcome)
      requires Valid()
      modifies this
      ensures Valid()
      ensures r == MalformedRequest <==> request.Unparseable?
      ensures r == ValidationError(MissingFields) <==>
        request.Body? && !(Given(request.fields.name) && Given(request.fields.price))
      ensures r == ValidationError(InvalidPrice) <==>
        request.Body? && Given(request.fields.name) && Given(request.fields.price) &&
        !PositiveNumber(request.fields.price.value)
      ensures r.Created? <==>
        request.Body? && Given(request.fields.name) && Given(request.fields.price) &&
        PositiveNumber(request.fields.price.value)
      ensures r.Created? ==>
        r.product == Product(|old(products)| + 1, request.fields.name.value, request.fields.price.value.n) &&
        products == old(products) + [r.product]
      ensures !r.Created? ==> products == old(products)
    {
      if request.Unparseable? {
        return MalformedRequest;
      }
      var body := request.fields;
      if !(Given(body.name) && Given(body.price)) {
        return ValidationError(MissingFields);
      }
      if !PositiveNumber(body.price.value) {
        return ValidationError(InvalidPrice);
      }
      var product := Product(|products| + 1, body.name.value, body.price.value.n);
      products := products + [product];
      r := Created(product);
    }
  }
}
