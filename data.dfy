/**
 * The catalogue reads of `src/lib/data.js`: each query is a function of the
 * store's tables, and the two reads that bucket books by category run the
 * grouping loop of `Grouping`.
 */
module Data {
  import opened Wrappers
  import opened Seqs
  import opened Catalog
  import opened Grouping

  /** The slug of the site's own shop. */
  const OfficialSlug: string := "official"

  /** The bucket for books whose category is unknown or has an empty name. */
  const Uncategorized: string := "Uncategorized"

  /** `getUserShop`: the signed-in user's shop, if the owner filter matches exactly one row. */
  function GetUserShop(st: Store, user: Option<UserId>): (r: Option<Shop>)
    reads st
    ensures r.Some? ==> user.Some? && r.value in st.shops && r.value.ownerId == user.value
  {
    if user.None? then None else Single(Filter(st.shops, OwnedBy(user.value)))
  }

  /** Under the table invariant a signed-in owner always gets their shop, and a user without one gets none. */
  lemma UserShopFound(st: Store, user: UserId)
    requires st.Valid()
    ensures forall s :: GetUserShop(st, Some(user)) == Some(s) <==> s in st.shops && s.ownerId == user
    ensures GetUserShop(st, Some(user)) == None <==> forall s :: s in st.shops ==> s.ownerId != user
  {
    ShopByOwnerLookup(st.shops, user);
  }

  /**
   * `getAllCategories`: every category, or the empty list when the query fails.
   * The database orders them by name; the model keeps the table order.
   */
  function GetAllCategories(st: Store, queryFails: bool): (r: seq<Category>)
    reads st
    ensures forall c :: c in r ==> c in st.categories
    ensures queryFails ==> r == []
    ensures !queryFails ==> multiset(r) == multiset(st.categories)
  {
    if queryFails then [] else st.categories
  }

  /** `new Map(allCategories.map(cat => [cat.id, cat.name]))`: a later entry overwrites an earlier one with the same id. */
  function CategoryMap(cats: seq<Category>): (m: map<CategoryId, string>)
    ensures forall id :: id in m <==> exists c :: c in cats && c.id == id
  {
    if cats == [] then map[] else
    var n := |cats| - 1;
    CategoryMap(cats[..n])[cats[n].id := cats[n].name]
  }

  /** With unique ids, the map sends each category's id to its name. */
  lemma {:induction false} CategoryMapNames(cats: seq<Category>)
    requires UniqueCategoryIds(cats)
    ensures forall c :: c in cats ==> CategoryMap(cats)[c.id] == c.name
  {
    forall c | c in cats ensures CategoryMap(cats)[c.id] == c.name {
      var i :| 0 <= i < |cats| && cats[i] == c;
      CategoryMapAt(cats, i);
    }
  }

  lemma {:induction false} CategoryMapAt(cats: seq<Category>, i: nat)
    requires UniqueCategoryIds(cats) && i < |cats|
    ensures cats[i].id in CategoryMap(cats) && CategoryMap(cats)[cats[i].id] == cats[i].name
  {
    var n := |cats| - 1;
    var pre := cats[..n];
    assert CategoryMap(cats) == CategoryMap(pre)[cats[n].id := cats[n].name];
    if i < n {
      UniqueCategoryIdsPrefix(cats, n);
      CategoryMapAt(pre, i);
      assert pre[i] == cats[i] && cats[i].id != cats[n].id;
    }
  }

  lemma UniqueCategoryIdsPrefix(cats: seq<Category>, n: nat)
    requires UniqueCategoryIds(cats) && n <= |cats|
    ensures UniqueCategoryIds(cats[..n])
  {
    var pre := cats[..n];
    forall a, b | 0 <= a < |pre| && 0 <= b < |pre| && pre[a].id == pre[b].id ensures a == b {
      assert pre[a] == cats[a] && pre[b] == cats[b];
    }
  }

  /** `categoryMap.get(book.category_id) || 'Uncategorized'` */
  function PageLabel(categoryMap: map<CategoryId, string>, categoryId: Option<CategoryId>): string
  {
    if categoryId.Some? && categoryId.value in categoryMap && categoryMap[categoryId.value] != ""
    then categoryMap[categoryId.value]
    else Uncategorized
  }

  /** The grouping key of the shop page. */
  function PageKey(categoryMap: map<CategoryId, string>): Book -> string
  {
    (b: Book) => PageLabel(categoryMap, b.categoryId)
  }

  /** A book row with its embedded category (`select('*, categories (name)')`); the embed is null without a match. */
  datatype JoinedBook = JoinedBook(book: Book, category: Option<Category>)

  function JoinCategory(b: Book, cats: seq<Category>): (r: JoinedBook)
    ensures r.book == b
    ensures r.category.Some? ==> b.categoryId == Some(r.category.value.id) && r.category.value in cats
  {
    JoinedBook(b, if b.categoryId.Some? then Single(Filter(cats, CategoryIdIs(b.categoryId.value))) else None)
  }

  /**
   * The rows of `select('*, categories (name)')`: each book in order, with the
   * category whose id it references embedded, or null when none has it.
   */
  function Join(books: seq<Book>, cats: seq<Category>): (r: seq<JoinedBook>)
    ensures |r| == |books|
    ensures forall i :: 0 <= i < |books| ==> r[i].book == books[i]
    ensures UniqueCategoryIds(cats) ==> forall i, c :: 0 <= i < |books| ==>
      (r[i].category == Some(c) <==> c in cats && books[i].categoryId == Some(c.id))
  {
    JoinEmbeds(books, cats);
    seq(|books|, i requires 0 <= i < |books| => JoinCategory(books[i], cats))
  }

  lemma JoinEmbeds(books: seq<Book>, cats: seq<Category>)
    ensures UniqueCategoryIds(cats) ==> forall i, c :: 0 <= i < |books| ==>
      (JoinCategory(books[i], cats).category == Some(c) <==> c in cats && books[i].categoryId == Some(c.id))
  {
    if UniqueCategoryIds(cats) {
      forall i | 0 <= i < |books| && books[i].categoryId.Some? {
        CategoryByIdLookup(cats, books[i].categoryId.value);
      }
    }
  }

  /** `book.categories?.name || 'Uncategorized'`: the grouping key of the official books. */
  function OfficialLabel(j: JoinedBook): string
  {
    if j.category.Some? && j.category.value.name != "" then j.category.value.name else Uncategorized
  }

  /**
   * The two reads compute a book's bucket differently (a lookup in the id-to-name
   * map, or the name of the embedded category) but agree on it when the
   * category list is the whole table.
   */
  lemma LabelsAgree(cats: seq<Category>, b: Book)
    requires UniqueCategoryIds(cats)
    ensures PageLabel(CategoryMap(cats), b.categoryId) == OfficialLabel(JoinCategory(b, cats))
  {
    CategoryMapNames(cats);
    if b.categoryId.Some? {
      CategoryByIdLookup(cats, b.categoryId.value);
      if b.categoryId.value in CategoryMap(cats) {
        var c :| c in cats && c.id == b.categoryId.value;
        assert JoinCategory(b, cats).category == Some(c);
      }
    }
  }

  /**
   * On the shop page a book lands in the bucket named after its category, or
   * in `'Uncategorized'` when no category has its id or that category's name is empty.
   */
  lemma PageBucketOf(books: seq<Book>, cats: seq<Category>, i: nat)
    requires UniqueCategoryIds(cats) && i < |books|
    ensures forall c :: c in cats && books[i].categoryId == Some(c.id) && c.name != "" ==>
      c.name in GroupBy(books, PageKey(CategoryMap(cats))) && books[i] in GroupBy(books, PageKey(CategoryMap(cats)))[c.name]
    ensures (forall c :: c in cats && books[i].categoryId == Some(c.id) ==> c.name == "") ==>
      Uncategorized in GroupBy(books, PageKey(CategoryMap(cats))) && books[i] in GroupBy(books, PageKey(CategoryMap(cats)))[Uncategorized]
  {
    CategoryMapNames(cats);
    InOwnBucket(books, PageKey(CategoryMap(cats)), i);
    var id := books[i].categoryId;
    if id.Some? && id.value in CategoryMap(cats) {
      var c :| c in cats && c.id == id.value;
    }
  }

  /** Books listed from the newest to the oldest by `created_at`: no book is newer than the one before it. */
  ghost predicate NewestFirstOrder(s: seq<JoinedBook>)
  {
    forall i :: 0 < i < |s| ==> s[i - 1].book.createdAt >= s[i].book.createdAt
  }

  /** In a newest-first list every book is at least as new as every later one. */
  lemma {:induction false} NewestFirstPairs(s: seq<JoinedBook>)
    requires NewestFirstOrder(s)
    ensures forall i, j :: 0 <= i < j < |s| ==> s[i].book.createdAt >= s[j].book.createdAt
  {
    if s != [] {
      var t := s[1..];
      assert NewestFirstOrder(t) by {
        forall i | 0 < i < |t| ensures t[i - 1].book.createdAt >= t[i].book.createdAt {
          assert t[i - 1] == s[i] && t[i] == s[i + 1];
        }
      }
      NewestFirstPairs(t);
      forall i, j | 0 <= i < j < |s| ensures s[i].book.createdAt >= s[j].book.createdAt {
        if i > 0 {
          assert s[i] == t[i - 1] && s[j] == t[j - 1];
        } else if j > 1 {
          assert s[1] == t[0] && s[j] == t[j - 1];
        }
      }
    }
  }

  /** Inserts `x` in front of the first book that is not newer than it. */
  function Insert(x: JoinedBook, s: seq<JoinedBook>): (r: seq<JoinedBook>)
    ensures |r| == |s| + 1
    ensures multiset(r) == multiset(s) + multiset{x}
  {
    if s == [] || x.book.createdAt >= s[0].book.createdAt then [x] + s
    else
      assert s == [s[0]] + s[1..];
      [s[0]] + Insert(x, s[1..])
  }

  /** Inserting into a newest-first list keeps it newest first. */
  lemma {:induction false} InsertNewestFirst(x: JoinedBook, s: seq<JoinedBook>)
    requires NewestFirstOrder(s)
    ensures NewestFirstOrder(Insert(x, s))
    ensures Insert(x, s)[0] == x || (s != [] && Insert(x, s)[0] == s[0])
  {
    if s != [] && x.book.createdAt < s[0].book.createdAt {
      var t := s[1..];
      assert NewestFirstOrder(t) by {
        forall i | 0 < i < |t| ensures t[i - 1].book.createdAt >= t[i].book.createdAt {
          assert t[i - 1] == s[i] && t[i] == s[i + 1];
        }
      }
      InsertNewestFirst(x, t);
      var rest := Insert(x, t);
      var r := [s[0]] + rest;
      assert r == Insert(x, s);
      assert rest[0].book.createdAt <= s[0].book.createdAt;
      forall i | 0 < i < |r| ensures r[i - 1].book.createdAt >= r[i].book.createdAt {
        assert r[i] == rest[i - 1];
        if i > 1 {
          assert r[i - 1] == rest[i - 2];
        }
      }
    }
  }

  /** `.order('created_at', { ascending: false })` */
  function NewestFirst(s: seq<JoinedBook>): (r: seq<JoinedBook>)
    ensures NewestFirstOrder(r)
    ensures multiset(r) == multiset(s)
  {
    if s == [] then [] else
    assert s == [s[0]] + s[1..];
    InsertNewestFirst(s[0], NewestFirst(s[1..]));
    Insert(s[0], NewestFirst(s[1..]))
  }

  /** The books at increasing positions of a newest-first list are themselves newest first. */
  lemma SelectNewestFirst(xs: seq<JoinedBook>, ps: seq<nat>)
    requires NewestFirstOrder(xs)
    requires forall j :: 0 <= j < |ps| ==> ps[j] < |xs|
    requires forall j, l :: 0 <= j < l < |ps| ==> ps[j] < ps[l]
    ensures NewestFirstOrder(Select(xs, ps))
  {
    NewestFirstPairs(xs);
    var b := Select(xs, ps);
    forall i | 0 < i < |b| ensures b[i - 1].book.createdAt >= b[i].book.createdAt {
      assert ps[i - 1] < ps[i];
      assert b[i - 1] == xs[ps[i - 1]] && b[i] == xs[ps[i]];
    }
  }

  /** A bucket of a newest-first list is itself newest first. */
  lemma BucketsNewestFirst(xs: seq<JoinedBook>, key: JoinedBook -> string)
    requires NewestFirstOrder(xs)
    ensures forall k :: k in GroupBy(xs, key) ==> NewestFirstOrder(GroupBy(xs, key)[k])
  {
    GroupByBuckets(xs, key);
    forall k | k in GroupBy(xs, key) ensures NewestFirstOrder(GroupBy(xs, key)[k]) {
      SelectNewestFirst(xs, Positions(xs, key, k));
    }
  }

  /** What `getShopBySlug` returns for a found shop. */
  datatype ShopPage = ShopPage(
    id: ShopId,
    name: string,
    slug: string,
    booksByCategory: map<string, seq<Book>>,
    isOwner: bool,
    allCategories: seq<Category>)

  /**
   * `getShopBySlug`: the shop with the slug, its books bucketed by category
   * name, whether the visitor owns it, and the category list; nothing when no
   * single shop has the slug. `categoriesFail` is the outcome of the nested
   * `getAllCategories` query.
   */
  method GetShopBySlug(st: Store, user: Option<UserId>, slug: string, categoriesFail: bool) returns (r: Option<ShopPage>)
    ensures st.Valid() ==> (r.None? <==> forall s :: s in st.shops ==> s.slug != slug)
    ensures r.Some? ==> exists s :: (s in st.shops && s.slug == slug
      && r.value.id == s.id && r.value.name == s.name && r.value.slug == slug
      && r.value.isOwner == (user.Some? && user.value == s.ownerId)
      && r.value.booksByCategory == GroupBy(BooksOfShop(st.books, s.id), PageKey(CategoryMap(r.value.allCategories))))
    ensures r.Some? ==> r.value.allCategories == GetAllCategories(st, categoriesFail)
  {
    if st.Valid() {
      ShopBySlugLookup(st.shops, slug);
    }
    var found := Single(Filter(st.shops, SlugIs(slug)));
    if found.None? {
      return None;
    }
    var shop := found.value;
    var allCategories := GetAllCategories(st, categoriesFail);
    var booksByCategory := GroupInto(BooksOfShop(st.books, shop.id), PageKey(CategoryMap(allCategories)));
    r := Some(ShopPage(shop.id, shop.name, shop.slug, booksByCategory, user.Some? && user.value == shop.ownerId, allCategories));
  }

  /** What `getOfficialBooksGroupedByCategory` returns. */
  datatype OfficialBooks = OfficialBooks(booksByCategory: map<string, seq<JoinedBook>>, shop: Option<Shop>)

  /** The official shop's books with their categories, newest first. */
  function OfficialBookList(st: Store, shop: Shop): (r: seq<JoinedBook>)
    reads st
    ensures NewestFirstOrder(r)
    ensures forall j :: j in r ==> j.book in st.books && j.book.shopId == shop.id
    ensures multiset(r) == multiset(Join(BooksOfShop(st.books, shop.id), st.categories))
  {
    var books := BooksOfShop(st.books, shop.id);
    var joined := Join(books, st.categories);
    var r := NewestFirst(joined);
    assert forall j :: j in r ==> j.book in st.books && j.book.shopId == shop.id by {
      forall j | j in r ensures j.book in st.books && j.book.shopId == shop.id {
        assert j in multiset(r);
        var i :| 0 <= i < |joined| && joined[i] == j;
        assert books[i] in books;
        assert InShop(shop.id)(books[i]);
      }
    }
    r
  }

  /** Every book of the shop is listed, with its embedded category. */
  lemma OfficialBookListed(st: Store, shop: Shop, b: Book)
    requires b in st.books && b.shopId == shop.id
    ensures JoinCategory(b, st.categories) in OfficialBookList(st, shop)
  {
    var books := BooksOfShop(st.books, shop.id);
    assert InShop(shop.id)(b);
    assert b in books;
    var i :| 0 <= i < |books| && books[i] == b;
    var joined := Join(books, st.categories);
    assert joined[i] == JoinCategory(b, st.categories);
    assert joined[i] in multiset(joined);
  }

  /** Every book of the shop lies in the bucket of its label. */
  lemma OfficialBookInBucket(st: Store, shop: Shop, b: Book)
    requires b in st.books && b.shopId == shop.id
    ensures var j := JoinCategory(b, st.categories); var g := GroupBy(OfficialBookList(st, shop), OfficialLabel);
      OfficialLabel(j) in g && j in g[OfficialLabel(j)]
  {
    var j := JoinCategory(b, st.categories);
    var list := OfficialBookList(st, shop);
    OfficialBookListed(st, shop, b);
    var i :| 0 <= i < |list| && list[i] == j;
    InOwnBucket(list, OfficialLabel, i);
  }

  /**
   * `getOfficialBooksGroupedByCategory`: the shop with slug `'official'` and its
   * books bucketed by category name; an empty grouping without the shop when
   * there is none, and with it when the books query fails (`booksFail`).
   */
  method GetOfficialBooksGroupedByCategory(st: Store, booksFail: bool) returns (r: OfficialBooks)
    ensures st.Valid() ==> (r.shop.None? <==> forall s :: s in st.shops ==> s.slug != OfficialSlug)
    ensures r.shop.Some? ==> r.shop.value in st.shops && r.shop.value.slug == OfficialSlug
    ensures r.shop.None? || booksFail ==> r.booksByCategory == map[]
    ensures r.shop.Some? && !booksFail ==> r.booksByCategory == GroupBy(OfficialBookList(st, r.shop.value), OfficialLabel)
    ensures forall k :: k in r.booksByCategory ==> NewestFirstOrder(r.booksByCategory[k])
    ensures forall k, j :: k in r.booksByCategory && j in r.booksByCategory[k] ==>
      r.shop.Some? && j.book in st.books && j.book.shopId == r.shop.value.id && OfficialLabel(j) == k
    ensures r.shop.Some? && !booksFail ==> forall b :: b in st.books && b.shopId == r.shop.value.id ==>
      var j := JoinCategory(b, st.categories);
      OfficialLabel(j) in r.booksByCategory && j in r.booksByCategory[OfficialLabel(j)]
  {
    if st.Valid() {
      ShopBySlugLookup(st.shops, OfficialSlug);
    }
    var officialShop := Single(Filter(st.shops, SlugIs(OfficialSlug)));
    if officialShop.None? {
      return OfficialBooks(map[], None);
    }
    if booksFail {
      return OfficialBooks(map[], officialShop);
    }
    var books := OfficialBookList(st, officialShop.value);
    var booksByCategory := GroupInto(books, OfficialLabel);
    BucketsNewestFirst(books, OfficialLabel);
    forall k | k in booksByCategory {
      BucketMembers(books, OfficialLabel, k);
    }
    forall b | b in st.books && b.shopId == officialShop.value.id {
      OfficialBookInBucket(st, officialShop.value, b);
    }
    r := OfficialBooks(booksByCategory, officialShop);
  }

  /** `getBookForEdit`: the book, when a user is signed in and owns the shop it belongs to. */
  function GetBookForEdit(st: Store, user: Option<UserId>, bookId: BookId): (r: Option<Book>)
    reads st
    ensures r.Some? ==> user.Some? && r.value in st.books && r.value.id == bookId
    ensures r.Some? ==> exists s :: s in st.shops && s.id == r.value.shopId && s.ownerId == user.value
  {
    if user.None? then None else
    match Single(Filter(st.books, BookIdIs(bookId)))
    case None => None
    case Some(book) =>
      match Single(Filter(st.shops, ShopIdIs(book.shopId)))
      case None => None
      case Some(shop) => if shop.ownerId == user.value then Some(book) else None
  }

  /** Under the table invariant the book is returned exactly when it exists and its shop belongs to the user. */
  lemma BookForEditFound(st: Store, user: UserId, bookId: BookId)
    requires st.Valid()
    ensures forall b :: GetBookForEdit(st, Some(user), bookId) == Some(b) <==>
      b in st.books && b.id == bookId && exists s :: s in st.shops && s.id == b.shopId && s.ownerId == user
  {
    BookByIdLookup(st.books, bookId);
    forall b | b in st.books && b.id == bookId
      ensures GetBookForEdit(st, Some(user), bookId) == Some(b) <==> exists s :: s in st.shops && s.id == b.shopId && s.ownerId == user
    {
      ShopByIdLookup(st.shops, b.shopId);
    }
  }

  /** What `getCurrentUserData` returns. */
  datatype UserData = UserData(user: Option<UserId>, profile: Option<Profile>, shop: Option<Shop>, adminShop: Option<Shop>)

  /**
   * `getCurrentUserData`: the user, their profile, their shop and, for an
   * admin only, the official shop; all four are null without a user.
   */
  function GetCurrentUserData(st: Store, user: Option<UserId>): (r: UserData)
    reads st
    ensures user.None? ==> r == UserData(None, None, None, None)
    ensures r.user == user
    ensures r.profile.Some? ==> user.Some? && r.profile.value in st.profiles && r.profile.value.id == user.value
    ensures r.shop == GetUserShop(st, user)
    ensures r.adminShop.Some? ==> r.profile.Some? && r.profile.value.role == "admin"
    ensures r.adminShop.Some? ==> r.adminShop.value in st.shops && r.adminShop.value.slug == OfficialSlug
  {
    if user.None? then UserData(None, None, None, None) else
    var profile := Single(Filter(st.profiles, ProfileIdIs(user.value)));
    var userShop := Single(Filter(st.shops, OwnedBy(user.value)));
    var adminShop :=
      if profile.Some? && profile.value.role == "admin" then Single(Filter(st.shops, SlugIs(OfficialSlug))) else None;
    UserData(user, profile, userShop, adminShop)
  }

  /** Under the table invariant an admin always sees the official shop when it exists, and nobody else does. */
  lemma AdminShopFound(st: Store, user: UserId)
    requires st.Valid()
    ensures GetCurrentUserData(st, Some(user)).adminShop.Some? <==>
      (exists p :: p in st.profiles && p.id == user && p.role == "admin")
      && (exists s :: s in st.shops && s.slug == OfficialSlug)
  {
    ProfileByIdLookup(st.profiles, user);
    ShopBySlugLookup(st.shops, OfficialSlug);
  }
}
