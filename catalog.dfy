/** The three static record sets and the join run once at startup, which
    attaches to every product its category (by categoryId) and that
    category's owner (by ownerId); src/App.jsx lines 16-23. */
module Catalog {
  import opened Wrappers
  import opened Seqs

  datatype Sex = Male | Female

  datatype User = User(id: int, name: string, sex: Sex)

  datatype Category = Category(id: int, title: string, icon: string, ownerId: int)

  datatype Product = Product(id: int, name: string, categoryId: int)

  /** `{ ...product, category, user }`. */
  datatype EnrichedProduct = EnrichedProduct(id: int, name: string, categoryId: int, category: Category, user: User)

  /** A foreign key that resolves to nothing. */
  datatype JoinError =
    | DanglingCategory(productId: int, categoryId: int)
    | DanglingOwner(categoryId: int, ownerId: int)

  /** `categoriesFromServer.find(cat => cat.id === id)`. */
  function CategoryById(categories: seq<Category>, id: int): (r: Option<Category>)
    ensures r.Some? ==> r.value in categories && r.value.id == id
    ensures r.None? <==> forall c :: c in categories ==> c.id != id
  {
    Find((c: Category) => c.id == id, categories)
  }

  /** `usersFromServer.find(u => u.id === id)`. */
  function UserById(users: seq<User>, id: int): (r: Option<User>)
    ensures r.Some? ==> r.value in users && r.value.id == id
    ensures r.None? <==> forall u :: u in users ==> u.id != id
  {
    Find((u: User) => u.id == id, users)
  }

  /** Both foreign keys of p resolve: its category exists and so does that category's owner. */
  predicate Resolves(users: seq<User>, categories: seq<Category>, p: Product)
  {
    && CategoryById(categories, p.categoryId).Some?
    && UserById(users, CategoryById(categories, p.categoryId).value.ownerId).Some?
  }

  /** e is p with its fields unchanged, carrying the category `find` returns for p's
      categoryId and the user `find` returns for that category's ownerId. */
  predicate Enriches(users: seq<User>, categories: seq<Category>, p: Product, e: EnrichedProduct)
  {
    && e.id == p.id && e.name == p.name && e.categoryId == p.categoryId
    && CategoryById(categories, p.categoryId) == Some(e.category)
    && UserById(users, e.category.ownerId) == Some(e.user)
  }

  /** The error the join reports for a product whose keys do not resolve. */
  function Fault(users: seq<User>, categories: seq<Category>, p: Product): JoinError
  {
    match CategoryById(categories, p.categoryId)
    case None => DanglingCategory(p.id, p.categoryId)
    case Some(c) => DanglingOwner(c.id, c.ownerId)
  }

  /** The callback passed to productsFromServer.map. */
  function Enrich(users: seq<User>, categories: seq<Category>, p: Product): (r: Result<EnrichedProduct, JoinError>)
    ensures r.Ok? <==> Resolves(users, categories, p)
    ensures r.Ok? ==> Enriches(users, categories, p, r.value)
    ensures r.Ok? ==> r.value.category.id == p.categoryId && r.value.user.id == r.value.category.ownerId
    ensures r.Ok? ==> exists i ::
              && 0 <= i < |categories| && categories[i] == r.value.category
              && forall m :: 0 <= m < i ==> categories[m].id != p.categoryId
    ensures r.Ok? ==> exists j ::
              && 0 <= j < |users| && users[j] == r.value.user
              && forall m :: 0 <= m < j ==> users[m].id != r.value.category.ownerId
    ensures r.Err? ==> r.error == Fault(users, categories, p)
  {
    match CategoryById(categories, p.categoryId)
    case None => Err(DanglingCategory(p.id, p.categoryId))
    case Some(c) =>
      match UserById(users, c.ownerId)
      case None => Err(DanglingOwner(c.id, c.ownerId))
      case Some(u) => Ok(EnrichedProduct(p.id, p.name, p.categoryId, c, u))
  }

  /** The join of products[i..]: one enriched record per product, in product order;
      the first product whose keys do not resolve stops it. */
  function JoinFrom(users: seq<User>, categories: seq<Category>, products: seq<Product>, i: nat)
    : (r: Result<seq<EnrichedProduct>, JoinError>)
    requires i <= |products|
    ensures r.Ok? <==> forall k :: i <= k < |products| ==> Resolves(users, categories, products[k])
    ensures r.Ok? ==> |r.value| == |products| - i
    ensures r.Ok? ==> forall k :: i <= k < |products| ==> Enriches(users, categories, products[k], r.value[k - i])
    decreases |products| - i
  {
    if i == |products| then Ok([])
    else
      match Enrich(users, categories, products[i])
      case Err(e) => Err(e)
      case Ok(head) =>
        match JoinFrom(users, categories, products, i + 1)
        case Err(e) => Err(e)
        case Ok(tail) =>
          EnrichesCons(users, categories, products, i, head, tail);
          Ok([head] + tail)
  }

  /** Enriching products[i] and, pointwise, every later product enriches products[i..]. */
  lemma EnrichesCons(users: seq<User>, categories: seq<Category>, products: seq<Product>, i: nat,
                     head: EnrichedProduct, tail: seq<EnrichedProduct>)
    requires i < |products| && |tail| == |products| - (i + 1)
    requires Enriches(users, categories, products[i], head)
    requires forall k :: i + 1 <= k < |products| ==> Enriches(users, categories, products[k], tail[k - (i + 1)])
    ensures forall k :: i <= k < |products| ==> Enriches(users, categories, products[k], ([head] + tail)[k - i])
  {
    forall k | i < k < |products| ensures Enriches(users, categories, products[k], ([head] + tail)[k - i]) {
      assert ([head] + tail)[k - i] == tail[k - (i + 1)];
    }
  }

  /** The startup join `productsFromServer.map(...)`: it succeeds exactly when every product's keys
      resolve, and then holds one enriched record per product, in product order. */
  function Join(users: seq<User>, categories: seq<Category>, products: seq<Product>): (r: Result<seq<EnrichedProduct>, JoinError>)
    ensures r.Ok? <==> forall k :: 0 <= k < |products| ==> Resolves(users, categories, products[k])
    ensures r.Ok? ==> |r.value| == |products|
    ensures r.Ok? ==> forall k :: 0 <= k < |products| ==> Enriches(users, categories, products[k], r.value[k])
  {
    JoinFrom(users, categories, products, 0)
  }

  /** The position of the first product at or after i whose keys do not resolve, in a failed join. */
  lemma {:induction false} FirstFaultFrom(users: seq<User>, categories: seq<Category>, products: seq<Product>, i: nat)
    returns (k: nat)
    requires i <= |products| && JoinFrom(users, categories, products, i).Err?
    ensures i <= k < |products| && !Resolves(users, categories, products[k])
    ensures forall m :: i <= m < k ==> Resolves(users, categories, products[m])
    ensures JoinFrom(users, categories, products, i).error == Fault(users, categories, products[k])
    decreases |products| - i
  {
    if Resolves(users, categories, products[i]) {
      assert JoinFrom(users, categories, products, i) == JoinFrom(users, categories, products, i + 1);
      k := FirstFaultFrom(users, categories, products, i + 1);
    } else {
      k := i;
    }
  }

  /** When the join fails, it names the fault of the first product whose keys do not resolve. */
  lemma JoinReportsFirstFault(users: seq<User>, categories: seq<Category>, products: seq<Product>)
    requires Join(users, categories, products).Err?
    ensures exists k ::
              && 0 <= k < |products| && !Resolves(users, categories, products[k])
              && (forall m :: 0 <= m < k ==> Resolves(users, categories, products[m]))
              && Join(users, categories, products).error == Fault(users, categories, products[k])
  {
    var k := FirstFaultFrom(users, categories, products, 0);
  }
}
