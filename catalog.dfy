/**
 * The store the core reads and writes: the rows of the `shops`, `books`,
 * `categories` and `profiles` tables, the equality lookups the queries issue,
 * and the consistency the tables keep (primary keys, the unique slug, one shop
 * per owner, every book in an existing shop).
 */
module Catalog {
  import opened Wrappers
  import opened Seqs

  type UserId = string
  type ShopId = string
  type BookId = string
  type CategoryId = string

  datatype Shop = Shop(id: ShopId, ownerId: UserId, name: string, slug: string)

  datatype Category = Category(id: CategoryId, name: string)

  /** A book row; `price` is kept as the text the form sent, `createdAt` is the database timestamp. */
  datatype Book = Book(
    id: BookId,
    shopId: ShopId,
    categoryId: Option<CategoryId>,
    title: string,
    affiliateUrl: string,
    imageUrl: Option<string>,
    shortDescription: Option<string>,
    price: Option<string>,
    createdAt: int)

  datatype Profile = Profile(id: UserId, role: string, displayName: Option<string>)

  /** Whether `revalidatePath` was asked to refresh one page or the whole layout under the path. */
  datatype Scope = Page | Layout

  /** One `revalidatePath(path, scope)` call. */
  datatype Revalidation = Revalidation(path: string, scope: Scope)

  /** The path of a shop's public page. */
  function ShopPath(slug: string): string
  {
    "/shop/" + slug
  }

  // Equality filters, one per `.eq(...)` combination the core issues.

  function SlugIs(slug: string): Shop -> bool { (s: Shop) => s.slug == slug }

  function OwnedBy(owner: UserId): Shop -> bool { (s: Shop) => s.ownerId == owner }

  function IdAndOwnerAre(id: ShopId, owner: UserId): Shop -> bool { (s: Shop) => s.id == id && s.ownerId == owner }

  function ShopIdIs(id: ShopId): Shop -> bool { (s: Shop) => s.id == id }

  function BookIdIs(id: BookId): Book -> bool { (b: Book) => b.id == id }

  function InShop(shopId: ShopId): Book -> bool { (b: Book) => b.shopId == shopId }

  function CategoryIdIs(id: CategoryId): Category -> bool { (c: Category) => c.id == id }

  function ProfileIdIs(id: UserId): Profile -> bool { (p: Profile) => p.id == id }

  /**
   * The books of a shop, for the nested `books(...)` select. That embed has no
   * ORDER BY, so its order is unspecified; the model takes table order.
   */
  function BooksOfShop(books: seq<Book>, shopId: ShopId): seq<Book>
  {
    Filter(books, InShop(shopId))
  }

  // The table invariant.

  ghost predicate UniqueShopIds(shops: seq<Shop>)
  {
    forall i, j :: 0 <= i < |shops| && 0 <= j < |shops| && shops[i].id == shops[j].id ==> i == j
  }

  /** The database's unique constraint on `shops.slug`. */
  ghost predicate UniqueSlugs(shops: seq<Shop>)
  {
    forall i, j :: 0 <= i < |shops| && 0 <= j < |shops| && shops[i].slug == shops[j].slug ==> i == j
  }

  /** At most one shop per owner: what `createShop` checks before it inserts. */
  ghost predicate OneShopPerOwner(shops: seq<Shop>)
  {
    forall i, j :: 0 <= i < |shops| && 0 <= j < |shops| && shops[i].ownerId == shops[j].ownerId ==> i == j
  }

  ghost predicate UniqueBookIds(books: seq<Book>)
  {
    forall i, j :: 0 <= i < |books| && 0 <= j < |books| && books[i].id == books[j].id ==> i == j
  }

  ghost predicate UniqueCategoryIds(categories: seq<Category>)
  {
    forall i, j :: 0 <= i < |categories| && 0 <= j < |categories| && categories[i].id == categories[j].id ==> i == j
  }

  ghost predicate UniqueProfileIds(profiles: seq<Profile>)
  {
    forall i, j :: 0 <= i < |profiles| && 0 <= j < |profiles| && profiles[i].id == profiles[j].id ==> i == j
  }

  /** The foreign key `books.shop_id`: every book belongs to a stored shop. */
  ghost predicate BooksInShops(books: seq<Book>, shops: seq<Shop>)
  {
    forall b :: b in books ==> exists s :: s in shops && s.id == b.shopId
  }

  ghost predicate Consistent(shops: seq<Shop>, books: seq<Book>, categories: seq<Category>, profiles: seq<Profile>)
  {
    && UniqueShopIds(shops) && UniqueSlugs(shops) && OneShopPerOwner(shops)
    && UniqueBookIds(books) && BooksInShops(books, shops)
    && UniqueCategoryIds(categories) && UniqueProfileIds(profiles)
  }

  /**
   * The database as the core sees it: four tables and the log of cache paths
   * the core asked to revalidate.
   */
  class Store {
    var shops: seq<Shop>
    var books: seq<Book>
    var categories: seq<Category>
    var profiles: seq<Profile>
    ghost var revalidated: seq<Revalidation>

    ghost predicate Valid()
      reads this
    {
      Consistent(shops, books, categories, profiles)
    }

    /** A store with the given categories and profiles, no shops, no books, nothing revalidated. */
    constructor (categories: seq<Category>, profiles: seq<Profile>)
      requires UniqueCategoryIds(categories) && UniqueProfileIds(profiles)
      ensures Valid()
      ensures this.shops == [] && this.books == []
      ensures this.categories == categories && this.profiles == profiles
      ensures revalidated == []
    {
      this.shops := [];
      this.books := [];
      this.categories := categories;
      this.profiles := profiles;
      this.revalidated := [];
    }
  }

  // What `.single()` finds under the invariant.

  /** The shop with a slug, found by `.eq('slug', slug).single()`; none when no shop has it. */
  lemma ShopBySlugLookup(shops: seq<Shop>, slug: string)
    requires UniqueSlugs(shops)
    ensures forall s :: Single(Filter(shops, SlugIs(slug))) == Some(s) <==> s in shops && s.slug == slug
    ensures Single(Filter(shops, SlugIs(slug))) == None <==> forall s :: s in shops ==> s.slug != slug
  {
    SingleOfUnique(shops, SlugIs(slug));
  }

  /** The shop of an owner, found by `.eq('owner_id', owner).single()`; none when the owner has no shop. */
  lemma ShopByOwnerLookup(shops: seq<Shop>, owner: UserId)
    requires OneShopPerOwner(shops)
    ensures forall s :: Single(Filter(shops, OwnedBy(owner))) == Some(s) <==> s in shops && s.ownerId == owner
    ensures Single(Filter(shops, OwnedBy(owner))) == None <==> forall s :: s in shops ==> s.ownerId != owner
  {
    SingleOfUnique(shops, OwnedBy(owner));
  }

  /** `.eq('id', id).eq('owner_id', owner).single()` finds a row exactly when that owner owns that shop id. */
  lemma ShopByIdAndOwnerLookup(shops: seq<Shop>, id: ShopId, owner: UserId)
    requires UniqueShopIds(shops)
    ensures forall s :: Single(Filter(shops, IdAndOwnerAre(id, owner))) == Some(s) <==> s in shops && s.id == id && s.ownerId == owner
    ensures Single(Filter(shops, IdAndOwnerAre(id, owner))) == None <==> forall s :: s in shops ==> !(s.id == id && s.ownerId == owner)
  {
    SingleOfUnique(shops, IdAndOwnerAre(id, owner));
  }

  lemma ShopByIdLookup(shops: seq<Shop>, id: ShopId)
    requires UniqueShopIds(shops)
    ensures forall s :: Single(Filter(shops, ShopIdIs(id))) == Some(s) <==> s in shops && s.id == id
    ensures Single(Filter(shops, ShopIdIs(id))) == None <==> forall s :: s in shops ==> s.id != id
  {
    SingleOfUnique(shops, ShopIdIs(id));
  }

  lemma BookByIdLookup(books: seq<Book>, id: BookId)
    requires UniqueBookIds(books)
    ensures forall b :: Single(Filter(books, BookIdIs(id))) == Some(b) <==> b in books && b.id == id
    ensures Single(Filter(books, BookIdIs(id))) == None <==> forall b :: b in books ==> b.id != id
  {
    SingleOfUnique(books, BookIdIs(id));
  }

  lemma CategoryByIdLookup(categories: seq<Category>, id: CategoryId)
    requires UniqueCategoryIds(categories)
    ensures forall c :: Single(Filter(categories, CategoryIdIs(id))) == Some(c) <==> c in categories && c.id == id
    ensures Single(Filter(categories, CategoryIdIs(id))) == None <==> forall c :: c in categories ==> c.id != id
  {
    SingleOfUnique(categories, CategoryIdIs(id));
  }

  lemma ProfileByIdLookup(profiles: seq<Profile>, id: UserId)
    requires UniqueProfileIds(profiles)
    ensures forall p :: Single(Filter(profiles, ProfileIdIs(id))) == Some(p) <==> p in profiles && p.id == id
    ensures Single(Filter(profiles, ProfileIdIs(id))) == None <==> forall p :: p in profiles ==> p.id != id
  {
    SingleOfUnique(profiles, ProfileIdIs(id));
  }

  /** Inserting a shop whose id and slug are new, for an owner without a shop, keeps the tables consistent. */
  lemma AddShopConsistent(shops: seq<Shop>, books: seq<Book>, categories: seq<Category>, profiles: seq<Profile>, shop: Shop)
    requires Consistent(shops, books, categories, profiles)
    requires forall s :: s in shops ==> s.id != shop.id && s.slug != shop.slug && s.ownerId != shop.ownerId
    ensures Consistent(shops + [shop], books, categories, profiles)
  {
    var shops' := shops + [shop];
    forall b | b in books ensures exists s :: s in shops' && s.id == b.shopId {
      var s :| s in shops && s.id == b.shopId;
      assert s in shops';
    }
  }

  /** Inserting a book with a new id into a stored shop keeps the tables consistent. */
  lemma AddBookConsistent(shops: seq<Shop>, books: seq<Book>, categories: seq<Category>, profiles: seq<Profile>, book: Book)
    requires Consistent(shops, books, categories, profiles)
    requires forall b :: b in books ==> b.id != book.id
    requires exists s :: s in shops && s.id == book.shopId
    ensures Consistent(shops, books + [book], categories, profiles)
  {
  }
}
