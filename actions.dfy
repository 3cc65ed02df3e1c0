/**
 * The server actions of `src/lib/actions.js`: `createShop` and
 * `addBookToShop`. Each checks its guards in the source's order, performs at
 * most one insert, and on success records the cache paths it revalidates.
 * The signed-in user, the form fields, the ids and timestamp the database
 * generates, and whether an insert fails for a reason the model does not
 * track are all parameters.
 */
module Actions {
  import opened Wrappers
  import opened Seqs
  import opened JsString
  import opened Slug
  import opened Catalog

  /** The error messages the actions return, one per distinct message. */
  datatype ActionError =
    | NotSignedIn      // "you must be signed in"
    | NameTooShort     // "the shop name must have at least 3 characters"
    | AlreadyHasShop   // "you already have a shop"
    | NameTaken        // the insert hit a unique violation (Postgres code 23505)
    | CreateFailed     // any other insert error
    | MissingFields    // "title, category and affiliate link are required"
    | NotShopOwner     // "you may not add books to this shop"
    | AddFailed        // the book insert failed

  /** `{ success: true, slug }` or `{ error }`. */
  datatype ActionResult = Success(slug: string) | Failure(error: ActionError)

  /** `!shopName || shopName.trim().length < 3` fails. */
  predicate ValidShopName(shopName: Option<string>)
  {
    shopName.Some? && shopName.value != [] && |Trim(shopName.value)| >= 3
  }

  /** A unique violation of `shops`: the new row repeats a stored id or slug. */
  predicate ShopConflicts(shops: seq<Shop>, shop: Shop)
  {
    exists s :: s in shops && (s.id == shop.id || s.slug == shop.slug)
  }

  /**
   * `createShop`: guards (signed in; a name of at least three characters once
   * trimmed; no shop of the user's yet; no unique violation; no other insert
   * error), then one insert of the untrimmed name under `Slugify(name)`, and
   * the layout of `/` and the page of the new shop are revalidated.
   */
  method CreateShop(st: Store, user: Option<UserId>, shopName: Option<string>, newId: ShopId, insertFails: bool)
    returns (r: ActionResult)
    modifies st
    ensures st.books == old(st.books) && st.categories == old(st.categories) && st.profiles == old(st.profiles)
    ensures r == Failure(NotSignedIn) <==> user.None?
    ensures r == Failure(NameTooShort) <==> user.Some? && !ValidShopName(shopName)
    ensures r == Failure(AlreadyHasShop) <==>
      user.Some? && ValidShopName(shopName) && old(Single(Filter(st.shops, OwnedBy(user.value)))).Some?
    ensures r == Failure(NameTaken) <==>
      user.Some? && ValidShopName(shopName) && old(Single(Filter(st.shops, OwnedBy(user.value)))).None?
      && ShopConflicts(old(st.shops), Shop(newId, user.value, shopName.value, Slugify(shopName.value)))
    ensures r == Failure(CreateFailed) <==>
      user.Some? && ValidShopName(shopName) && old(Single(Filter(st.shops, OwnedBy(user.value)))).None?
      && !ShopConflicts(old(st.shops), Shop(newId, user.value, shopName.value, Slugify(shopName.value)))
      && insertFails
    ensures r.Success? <==>
      user.Some? && ValidShopName(shopName) && old(Single(Filter(st.shops, OwnedBy(user.value)))).None?
      && !ShopConflicts(old(st.shops), Shop(newId, user.value, shopName.value, Slugify(shopName.value)))
      && !insertFails
    ensures r.Failure? ==> st.shops == old(st.shops) && st.revalidated == old(st.revalidated)
    ensures r.Success? ==>
      && user.Some? && shopName.Some?
      && r.slug == Slugify(shopName.value) && IsSlug(r.slug)
      && st.shops == old(st.shops) + [Shop(newId, user.value, shopName.value, r.slug)]
      && st.revalidated == old(st.revalidated) + [Revalidation("/", Layout), Revalidation(ShopPath(r.slug), Page)]
    ensures old(st.Valid()) ==> st.Valid()
  {
    if user.None? {
      return Failure(NotSignedIn);
    }
    var owner := user.value;
    if shopName.None? || shopName.value == [] || |Trim(shopName.value)| < 3 {
      return Failure(NameTooShort);
    }
    var name := shopName.value;
    var existingShop := Single(Filter(st.shops, OwnedBy(owner)));
    if existingShop.Some? {
      return Failure(AlreadyHasShop);
    }
    var slug := Slugify(name);
    var shop := Shop(newId, owner, name, slug);
    if ShopConflicts(st.shops, shop) {
      return Failure(NameTaken);
    }
    if insertFails {
      return Failure(CreateFailed);
    }
    SlugShape(name);
    InsertShop(st, shop);
    r := Success(slug);
  }

  /**
   * The successful insert of `createShop`: one new row, then `revalidatePath('/', 'layout')`
   * and `revalidatePath('/shop/' + slug)`.
   */
  method InsertShop(st: Store, shop: Shop)
    modifies st
    ensures st.shops == old(st.shops) + [shop]
    ensures st.revalidated == old(st.revalidated) + [Revalidation("/", Layout), Revalidation(ShopPath(shop.slug), Page)]
    ensures st.books == old(st.books) && st.categories == old(st.categories) && st.profiles == old(st.profiles)
    ensures old(st.Valid()) && !ShopConflicts(old(st.shops), shop) && Single(Filter(old(st.shops), OwnedBy(shop.ownerId))).None?
      ==> st.Valid()
  {
    if st.Valid() && !ShopConflicts(st.shops, shop) && Single(Filter(st.shops, OwnedBy(shop.ownerId))).None? {
      ShopByOwnerLookup(st.shops, shop.ownerId);
      AddShopConsistent(st.shops, st.books, st.categories, st.profiles, shop);
    }
    st.shops := st.shops + [shop];
    st.revalidated := st.revalidated + [Revalidation("/", Layout), Revalidation(ShopPath(shop.slug), Page)];
  }

  /** The fields of the add-book form; a field the form did not send is `None`. */
  datatype BookForm = BookForm(
    shopId: Option<string>,
    shopSlug: Option<string>,
    title: Option<string>,
    categoryId: Option<string>,
    affiliateUrl: Option<string>,
    imageUrl: Option<string>,
    shortDescription: Option<string>,
    price: Option<string>)

  /** A form value JavaScript treats as truthy: sent and not empty. */
  predicate Present(field: Option<string>)
  {
    field.Some? && field.value != []
  }

  predicate RequiredFieldsPresent(form: BookForm)
  {
    Present(form.shopId) && Present(form.shopSlug) && Present(form.title) && Present(form.categoryId) && Present(form.affiliateUrl)
  }

  /** The row `addBookToShop` inserts; an absent or empty price is stored as null. */
  function NewBook(form: BookForm, id: BookId, createdAt: int): (b: Book)
    requires RequiredFieldsPresent(form)
    ensures b.shopId == form.shopId.value && b.categoryId == form.categoryId && b.title == form.title.value
    ensures b.price.Some? <==> Present(form.price)
    ensures b.price.Some? ==> b.price == form.price
  {
    Book(id, form.shopId.value, form.categoryId, form.title.value, form.affiliateUrl.value,
      form.imageUrl, form.shortDescription, if Present(form.price) then form.price else None, createdAt)
  }

  /**
   * Why the book insert is rejected: a repeated id, a category id no category
   * has (the foreign key `books.category_id`), or another error.
   */
  predicate BookInsertRejected(st: Store, book: Book, insertFails: bool)
    reads st
  {
    insertFails
    || (exists b :: b in st.books && b.id == book.id)
    || (book.categoryId.Some? && forall c :: c in st.categories ==> c.id != book.categoryId.value)
  }

  /**
   * The accepted insert of `addBookToShop`: the row is appended and the page at
   * `/shop/<slug>` is revalidated; a book with a new id in a stored shop keeps
   * the tables consistent.
   */
  method InsertBook(st: Store, book: Book, slug: string)
    modifies st
    ensures st.books == old(st.books) + [book]
    ensures st.revalidated == old(st.revalidated) + [Revalidation(ShopPath(slug), Page)]
    ensures st.shops == old(st.shops) && st.categories == old(st.categories) && st.profiles == old(st.profiles)
    ensures (old(st.Valid()) && (forall b :: b in old(st.books) ==> b.id != book.id)
      && (exists s :: s in old(st.shops) && s.id == book.shopId)) ==> st.Valid()
  {
    if st.Valid() && (forall b :: b in st.books ==> b.id != book.id) && (exists s :: s in st.shops && s.id == book.shopId) {
      AddBookConsistent(st.shops, st.books, st.categories, st.profiles, book);
    }
    st.books := st.books + [book];
    st.revalidated := st.revalidated + [Revalidation(ShopPath(slug), Page)];
  }

  /**
   * `addBookToShop`: guards (signed in; shop id, shop slug, title, category and
   * affiliate link all present; a stored shop with that id owned by the user;
   * the insert accepted), then one insert, and the page under the
   * client-supplied slug is revalidated.
   */
  method AddBookToShop(st: Store, user: Option<UserId>, form: BookForm, newId: BookId, now: int, insertFails: bool)
    returns (r: ActionResult)
    modifies st
    ensures st.shops == old(st.shops) && st.categories == old(st.categories) && st.profiles == old(st.profiles)
    ensures r == Failure(NotSignedIn) <==> user.None?
    ensures r == Failure(MissingFields) <==> user.Some? && !RequiredFieldsPresent(form)
    ensures r == Failure(NotShopOwner) <==>
      user.Some? && RequiredFieldsPresent(form)
      && old(Single(Filter(st.shops, IdAndOwnerAre(form.shopId.value, user.value)))).None?
    ensures r == Failure(AddFailed) <==>
      user.Some? && RequiredFieldsPresent(form)
      && old(Single(Filter(st.shops, IdAndOwnerAre(form.shopId.value, user.value)))).Some?
      && old(BookInsertRejected(st, NewBook(form, newId, now), insertFails))
    ensures r.Success? <==>
      user.Some? && RequiredFieldsPresent(form)
      && old(Single(Filter(st.shops, IdAndOwnerAre(form.shopId.value, user.value)))).Some?
      && !old(BookInsertRejected(st, NewBook(form, newId, now), insertFails))
    ensures r.Failure? ==> st.books == old(st.books) && st.revalidated == old(st.revalidated)
    ensures r.Success? ==>
      && user.Some? && RequiredFieldsPresent(form)
      && (exists s :: s in old(st.shops) && s.id == form.shopId.value && s.ownerId == user.value)
      && r.slug == form.shopSlug.value
      && st.books == old(st.books) + [NewBook(form, newId, now)]
      && st.revalidated == old(st.revalidated) + [Revalidation(ShopPath(form.shopSlug.value), Page)]
    ensures old(st.Valid()) ==> st.Valid()
  {
    if user.None? {
      return Failure(NotSignedIn);
    }
    if !Present(form.shopId) || !Present(form.shopSlug) || !Present(form.title) || !Present(form.categoryId) || !Present(form.affiliateUrl) {
      return Failure(MissingFields);
    }
    var shop := Single(Filter(st.shops, IdAndOwnerAre(form.shopId.value, user.value)));
    if shop.None? {
      return Failure(NotShopOwner);
    }
    var book := NewBook(form, newId, now);
    if BookInsertRejected(st, book, insertFails) {
      return Failure(AddFailed);
    }
    assert shop.value in st.shops && IdAndOwnerAre(form.shopId.value, user.value)(shop.value);
    InsertBook(st, book, form.shopSlug.value);
    r := Success(form.shopSlug.value);
  }
}
