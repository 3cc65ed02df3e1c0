# boier-dokan: a verified model of the shop and catalogue core

boier-dokan is a small bookshop directory. Each signed-in user may open one
shop, which gets a URL slug derived from its name. The owner adds books to the
shop, each filed under a category. One shop with the slug `official` is the
site's own shelf.

This project models the server-side core in Dafny:

- the two server actions that write the database (`createShop` and
  `addBookToShop`), including the `slugify` transform;
- the catalogue reads (`getUserShop`, `getAllCategories`, `getShopBySlug`,
  `getBookForEdit`, `getCurrentUserData` and
  `getOfficialBooksGroupedByCategory`);
- the category grouping those reads share;
- the `getInitials` helper that builds a shop's avatar label.

The database is a `Store` class (`Catalog`). It holds the `shops`, `books`,
`categories` and `profiles` tables as sequences, plus a ghost log of the
`revalidatePath` calls. `Store.Valid()` is the table invariant:

- shop ids, book ids, category ids and profile ids are unique;
- shop slugs are unique;
- each owner has at most one shop;
- every book belongs to a stored shop.

Both actions preserve `Valid()`.

A PostgREST equality query ending in `.single()` is modelled as
`Single(Filter(rows, p))`. It returns the row when exactly one row matches,
and nothing otherwise. The lookup lemmas in `Catalog` show that under the
invariant this is "the matching row, or none when no row matches".

The code under `src/` is the reference. Where the code does something its
own comments or its callers might not expect, the model follows the code:

- The doc comment of `slugify` gives "আমার বই ঘর" → "আমার-বই-ঘর" as its example.
  JavaScript's `\w` without the `u` flag is ASCII-only, however. The code
  therefore deletes every Bengali letter and returns the empty slug
  (`Slug.BengaliNameSlugIsEmpty`).
- `createShop` does not reject an empty slug. A name with no ASCII letter,
  digit or underscore still creates a shop, with slug `""`, provided no shop
  already has that slug.

Modules, one per file:

| file | module | models |
|---|---|---|
| wrappers.dfy | Wrappers | `Option` |
| seqs.dfy | Seqs | equality filter and `.single()` |
| jsstring.dfy | JsString | the JavaScript `\s` and `\w` classes, `trim`, ASCII case mapping |
| slug.dfy | Slug | `slugify` |
| initials.dfy | ShopList | `getInitials` |
| catalog.dfy | Catalog | the rows, the `Store`, the invariant, the `.single()` lookups |
| grouping.dfy | Grouping | the bucketing `reduce` |
| data.dfy | Data | the reads in `src/lib/data.js` |
| actions.dfy | Actions | the server actions in `src/lib/actions.js` |

Values that come from outside the core are parameters of the operations:

- the signed-in user (`Option<UserId>`);
- the form fields;
- the ids and the `created_at` timestamp the database generates;
- whether a query or insert fails for a reason the model does not track.

## Model

| member | source | states |
|---|---|---|
| Slug.Slugify | src/lib/actions.js:12-22 | `slugify` itself; its properties are the lemmas below. `Slug.MyBooksSlug` shows that "My Books" gives `my-books` |
| Slug.MyBooksSlug | src/lib/actions.js:12-22 | "My Books" slugifies to `my-books` |
| Slug.SpaceBetweenWords | src/lib/actions.js:17 | `/\s+/g → '-'` turns the single space between two words without whitespace into one hyphen |
| Slug.HyphenateSpaces | src/lib/actions.js:17 | `/\s+/g → '-'`; `Slug.HyphenateRunsChars` gives its contract |
| Slug.StripNonWord | src/lib/actions.js:18 | `/[^\w\-]+/g → ''` keeps exactly the characters of `[A-Za-z0-9_-]`, each as often as it occurs (`Seqs.FilterCount`) and in order (`Seqs.FilterAppend`) |
| Slug.CollapseHyphens | src/lib/actions.js:19 | `/\-\-+/g → '-'`; `Slug.CollapsedHasNoDoubleHyphen` gives its contract |
| Slug.TrimHyphens | src/lib/actions.js:20-21 | the two anchored replacements; `Slug.TrimHyphensShape` gives their contract |
| Slug.SlugShape | src/lib/actions.js:12-22 | every slug consists only of `[a-z0-9_-]`, never begins or ends with `-` and never contains `--` |
| Slug.SlugChars | src/lib/actions.js:16-18 | the slug keeps every ASCII letter (lower-cased), digit and underscore of the name; apart from hyphens it contains nothing else |
| Slug.SlugEmptyIff | src/lib/actions.js:13-21 | the slug is empty exactly when the name has no ASCII letter, digit or underscore; this includes the empty name |
| Slug.SlugIsFixpoint | src/lib/actions.js:14-21 | every replacement leaves a string of slug shape unchanged |
| Slug.SlugifyIdempotent | src/lib/actions.js:12-22 | slugifying a slug gives it back |
| Slug.BengaliNameSlugIsEmpty | src/lib/actions.js:6-22 | the doc comment's example name "আমার বই ঘর" slugifies to `""`, not to "আমার-বই-ঘর" |
| Slug.CollapsedHasNoDoubleHyphen | src/lib/actions.js:19 | after `/\-\-+/g → '-'` no two hyphens are adjacent |
| Slug.TrimHyphensShape | src/lib/actions.js:20-21 | stripping leading and trailing hyphens keeps every non-hyphen character and leaves no hyphen at either end |
| Slug.HyphenateRunsChars | src/lib/actions.js:17 | turning each whitespace run into `-` adds only hyphens and keeps every other character |
| Slug.DropRunShape | src/lib/actions.js:20 | `/^-+/ → ''` removes exactly the leading run of hyphens |
| Slug.DropTrailingHyphensShape | src/lib/actions.js:21 | `/-+$/ → ''` removes exactly the trailing run of hyphens |
| Slug.StrippedChars | src/lib/actions.js:16-18 | after lower-casing, hyphenating whitespace and deleting `[^\w\-]`, only slug characters remain, each a hyphen or a lower-cased character of the name, and every ASCII word character of the name survives lower-cased |
| Slug.SlugStagesFix | src/lib/actions.js:16-21 | on a string of slug shape each of the five replacements is the identity |
| JsString.Trim | src/components/ShopList.js:5 | `trim`: `trimStart` then `trimEnd`, each with its own contract; `JsString.TrimEnds` gives the combined one |
| JsString.TrimEnds | src/components/ShopList.js:5 | `trim` leaves no whitespace at either end; it leaves nothing exactly when the name is all whitespace |
| Actions.CreateShop | src/lib/actions.js:30-84 | each error exactly when its guard is the first to fail, and success exactly when all guards pass. The guards in order: signed in; name present and at least 3 characters after trimming; no shop owned by the user; no unique violation on id or slug (code 23505, no suffixing or retry); no other insert error. On any failure, shops and the revalidation log are unchanged. On success it appends exactly one shop (the user as owner, the untrimmed name, slug `Slugify(name)`), revalidates the `/` layout and the `/shop/<slug>` page, and returns the slug. Books, categories and profiles never change. It preserves `Valid()`, so one shop per owner persists |
| Actions.ValidShopName | src/lib/actions.js:41 | the name is present, non-empty, and at least 3 characters long after `trim` |
| Actions.BookInsertRejected | src/lib/actions.js:129-144 | the insert fails on a repeated book id, on a category id no category has, or on another error |
| Actions.NewBook | src/lib/actions.js:129-139 | the inserted row takes shop id, category id and title from the form; its price is null exactly when the form's price is absent or empty |
| Actions.AddBookToShop | src/lib/actions.js:92-150 | each error exactly when its guard is the first to fail, and success exactly when all guards pass. The guards in order: signed in; shop id, shop slug, title, category id and affiliate URL all non-empty; a stored shop with that id owned by the user, checked against the table and not the client; the insert accepted. On any failure, books and the log are unchanged. On success it appends exactly one book, revalidates only `/shop/<shopSlug>` under the client-supplied slug, and returns that slug. Shops, categories and profiles never change. It preserves `Valid()` |
| Actions.InsertShop | src/lib/actions.js:58-80 | the accepted shop insert appends exactly the new row and revalidates the `/` layout and the `/shop/<slug>` page; other tables unchanged; with a new id and slug, for an owner without a shop, it keeps `Valid()` |
| Actions.InsertBook | src/lib/actions.js:129-147 | the accepted book insert appends exactly the new row and revalidates `/shop/<slug>`; other tables unchanged; with a new id in a stored shop it keeps `Valid()` |
| Catalog.ShopBySlugLookup | src/lib/data.js:53-64 | under unique slugs, `.eq('slug', s).single()` yields exactly the shop with that slug, and nothing when no shop has it |
| Catalog.ShopByOwnerLookup | src/lib/actions.js:46-54 | under one shop per owner, `.eq('owner_id', u).single()` yields the user's shop, and nothing exactly when they own none |
| Catalog.ShopByIdAndOwnerLookup | src/lib/actions.js:117-126 | `.eq('id', i).eq('owner_id', u).single()` yields a row exactly when the user owns the shop with id `i` |
| Catalog.ShopByIdLookup | src/lib/data.js:98-104 | the shop embedded in a book is the stored shop with the book's shop id |
| Catalog.BookByIdLookup | src/lib/data.js:98-102 | `.eq('id', bookId).single()` yields exactly the book with that id |
| Catalog.CategoryByIdLookup | src/lib/data.js:156-160 | the embedded category is exactly the category with the book's category id |
| Catalog.ProfileByIdLookup | src/lib/data.js:121 | the profile query yields exactly the user's profile row |
| Catalog.AddShopConsistent | src/lib/actions.js:58-66 | inserting a shop with a new id and slug, for an owner without a shop, keeps the invariant |
| Catalog.AddBookConsistent | src/lib/actions.js:129-139 | inserting a book with a new id into a stored shop keeps the invariant |
| Grouping.GroupBy | src/lib/data.js:69-76 | the bucketing `reduce` as a fold over the list; `Grouping.GroupByKeys` and `Grouping.GroupByBuckets` give its contract |
| Grouping.GroupInto | src/lib/data.js:69-76 | the loop that mutates the accumulator (create the bucket if missing, then push) computes `GroupBy` |
| Grouping.GroupByKeys | src/lib/data.js:69-76 | the grouping has a bucket for exactly the keys that occur in the list |
| Grouping.GroupByBuckets | src/lib/data.js:167-174 | each bucket holds the elements with its key, in their input order (at increasing positions), and nothing else: a partition that preserves order |
| Grouping.InOwnBucket | src/lib/data.js:70-74 | every element is in the bucket of its own key |
| Grouping.BucketMembers | src/lib/data.js:168-172 | every element of a bucket comes from the list and carries the bucket's key |
| Grouping.GroupByEmpty | src/lib/data.js:69-76 | the grouping is the empty object exactly when the list is empty |
| Grouping.BucketSizesSum | src/lib/data.js:69-76 | the bucket sizes, over the keys in the order they are first met, add up to the number of books |
| Grouping.KeyOrder | src/lib/data.js:71-73 | the keys as the buckets are created: no key repeats, and the keys are exactly those that occur |
| Grouping.Positions | src/lib/data.js:69-76 | the increasing list of the positions whose element has a given key |
| Data.GetUserShop | src/lib/data.js:6-28 | null without a user; otherwise any shop returned is stored and owned by the user |
| Data.UserShopFound | src/lib/data.js:16-27 | under the invariant a signed-in user gets their shop, and null exactly when they own none |
| Data.GetAllCategories | src/lib/data.js:33-46 | the empty list when the query fails; otherwise a permutation of the category table |
| Data.CategoryMap | src/lib/data.js:67 | the id-to-name map has exactly the ids of the category list |
| Data.CategoryMapNames | src/lib/data.js:67 | with unique ids, the map sends each category's id to its name |
| Data.LabelsAgree | src/lib/data.js:70 | the shop-page key (`categoryMap.get(id) \|\| 'Uncategorized'`) equals the official-page key (`categories?.name \|\| 'Uncategorized'`) when the categories are the whole table |
| Data.PageBucketOf | src/lib/data.js:66-76 | a book is in the bucket named after its category, or in `'Uncategorized'` when no category has its id or that category's name is empty |
| Data.GetShopBySlug | src/lib/data.js:48-86 | under the invariant: null exactly when no shop has the slug. Otherwise the shop's id, name and slug; its books grouped by category label; `isOwner` true exactly when a user is signed in and owns the shop (so always false for anonymous visitors); and the category list |
| Data.PageLabel | src/lib/data.js:70 | `categoryMap.get(book.category_id) \|\| 'Uncategorized'`; `Data.PageBucketOf` and `Data.LabelsAgree` give its contract |
| Data.OfficialLabel | src/lib/data.js:168 | `book.categories?.name \|\| 'Uncategorized'`; `Data.LabelsAgree` relates it to `PageLabel` |
| Data.JoinCategory | src/lib/data.js:158 | the embedded category, when present, is a stored category with the book's category id |
| Data.Join | src/lib/data.js:156-158 | each row keeps its book, in order; with unique category ids the embedded category is some `c` exactly when `c` is a stored category whose id the book references, so it is null exactly when no category has that id |
| Data.Insert | src/lib/data.js:160 | one insertion step of the ordering adds exactly that book: one more row, and the multiset of rows gains it |
| Data.InsertNewestFirst | src/lib/data.js:160 | inserting into a newest-first list keeps it newest first; the new head is the inserted book or the old head |
| Data.NewestFirstPairs | src/lib/data.js:160 | in a newest-first list every book is at least as new as every later one, not only its neighbour |
| Data.NewestFirst | src/lib/data.js:160 | `.order('created_at', { ascending: false })`: a permutation of the rows in descending `created_at` |
| Data.OfficialBookList | src/lib/data.js:156-160 | the official shop's books, newest first, each a stored book of that shop; as a multiset, exactly the shop's books joined with their categories, each listed once |
| Data.OfficialBookListed | src/lib/data.js:156-160 | every stored book of the official shop appears in the list with its embedded category |
| Data.OfficialBookInBucket | src/lib/data.js:156-174 | every stored book of the official shop lies in the bucket of its label |
| Data.SelectNewestFirst | src/lib/data.js:167-174 | the books at increasing positions of a newest-first list are newest first too |
| Data.BucketsNewestFirst | src/lib/data.js:167-174 | every bucket of a newest-first list is newest first |
| Data.GetOfficialBooksGroupedByCategory | src/lib/data.js:142-177 | under the invariant the shop is null exactly when no shop has slug `official`. The grouping is empty when the shop is missing or the books query fails. Otherwise the official books are grouped by embedded category name or `'Uncategorized'`; each bucket is in descending `created_at`, and each entry is a stored book of the official shop carrying its bucket's label. Conversely every stored book of the official shop appears in the bucket of its label |
| Data.GetBookForEdit | src/lib/data.js:91-109 | null without a user; any book returned has the requested id, is stored, and belongs to a shop owned by the user |
| Data.BookForEditFound | src/lib/data.js:96-108 | under the invariant the book is returned exactly when it exists and its shop's owner is the user |
| Data.GetCurrentUserData | src/lib/data.js:111-139 | without a user all four fields are null. The profile is the user's own and the shop is `getUserShop`'s. `adminShop` is non-null only for a profile whose role is `admin`, and it is then the stored shop with slug `official` |
| Data.AdminShopFound | src/lib/data.js:128-136 | under the invariant `adminShop` is present exactly when the user's profile has role `admin` and a shop with slug `official` exists |
| Seqs.Filter | src/lib/data.js:59 | the rows an equality filter keeps: a value is in the result exactly when it is a row that satisfies the filter, and the result is never longer than the table |
| Seqs.FilterCount | src/lib/data.js:59 | each row that satisfies the filter is kept as many times as it occurs, and no other row is kept |
| Seqs.FilterAppend | src/lib/data.js:59 | filtering a concatenation filters each part and concatenates, so kept rows stay in table order |
| Seqs.FilterSnoc | src/lib/data.js:59 | one more row at the end of the table adds it at the end of the result exactly when it satisfies the filter |
| Seqs.SingleOfUnique | src/lib/data.js:60 | on a unique key, `.single()` yields exactly the matching row, and nothing exactly when no row matches |
| Seqs.FilterAtMostOne | src/lib/data.js:20 | on a unique key, an equality filter matches at most one row |
| ShopList.GetInitials | src/components/ShopList.js:3-13 | the label always has 1 or 2 characters |
| ShopList.InitialsOfBlankName | src/components/ShopList.js:4-12 | an absent, empty or whitespace-only name shows `?` |
| ShopList.InitialsOfOneWord | src/components/ShopList.js:9-10 | a one-word name shows its first two characters upper-cased, or its only character |
| ShopList.InitialsOfSeveralWords | src/components/ShopList.js:6-7 | a name of several words shows the upper-cased first character of the first word followed by that of the last word; the middle words are ignored |
| ShopList.FirstWord | src/components/ShopList.js:5-7 | for a trimmed name, the first piece of `split(/\s+/)` is its non-empty first word, and there is more than one piece exactly when it contains whitespace |
| ShopList.LastWordFrom | src/components/ShopList.js:7 | for a trimmed name, the last piece of the split is the non-empty run after its last whitespace |
| ShopList.SplitOnSpaces | src/components/ShopList.js:5 | `split(/\s+/)`: at least one piece; `ShopList.FirstWord` and `ShopList.LastWordFrom` give its first and last pieces |
| ShopList.SplitFrom | src/components/ShopList.js:5 | the split gives at least one piece, and exactly one when there is no whitespace |

## Left out

- Supabase client, authentication and the `noStore` cache switch are not modelled. The signed-in user is a parameter, and `revalidatePath` is an entry in the ghost log `Store.revalidated`.
- Transport errors are modelled only where the code handles them separately: `getAllCategories` (`queryFails`), the books query of `getOfficialBooksGroupedByCategory` (`booksFail`) and the two inserts (`insertFails`). Every other query is assumed to succeed. In the source a failed `.single()` query yields `data: null`, the same outcome as "no row", even when the row exists; the model never produces that outcome for an existing row.
- Actions.CreateShop: a failure of the existing-shop query (src/lib/actions.js:46-54) is not modelled. In the source it leaves `existingShop` null, so a user who already owns a shop could insert a second one. The promise that `Valid()`, and with it one shop per owner, is preserved holds only when that query succeeds.
- Data.GetShopBySlug, Data.GetBookForEdit, Data.GetCurrentUserData and Data.GetOfficialBooksGroupedByCategory: a transport error on their `.single()` lookup is not modelled. The source then returns null, or an empty grouping with no shop, even though the row exists. The model's "null exactly when no such row" holds only when the query succeeds.
- `.single()` over several matching rows returns nothing here, as in PostgREST. The lemmas assume the table invariant, which rules that case out.
- `Promise.all` in `getCurrentUserData` is two reads of the same state.
- The race between `createShop`'s ownership check and its insert is not modelled; the actions are sequential.
- Data.GetAllCategories: keeps the table order instead of `ORDER BY name`. Postgres collation is not modelled, so the contract promises only a permutation of the table.
- Data.GetShopBySlug: the nested `books ( … )` embed (src/lib/data.js:57) has no ORDER BY, so PostgREST returns the shop's books in an unspecified order. The model takes table order, and the order inside each bucket of `booksByCategory` is relative to that choice.
- Actions.ValidShopName: strings are sequences of code points, while JavaScript's `length` counts UTF-16 code units. A name of two emoji has length 4 in JavaScript and passes `trim().length < 3`; in the model it has length 2 and is rejected with `NameTooShort`.
- Data.NewestFirst: books with equal `created_at` may come out in any order in Postgres. The model fixes one order, and its contract promises only descending timestamps and a permutation.
- Only the columns the core uses are modelled. The `select` projections are not; each query returns whole rows.
- Actions.CreateShop: a unique violation on the generated id is treated like one on the slug, since both raise code 23505. Whether `shops.owner_id` has a database constraint is not known, so only the code's own check enforces one shop per owner.
- Actions.AddBookToShop: the only insert errors modelled are a repeated book id, a category id that no category has, and the `insertFails` parameter. The category check follows from the foreign key behind the `categories (name)` embed.
- Data.GetBookForEdit: a book whose shop row is missing would throw in `book.shops.owner_id`. The model returns null, and the foreign key `books.shop_id` in the invariant rules that case out.
- Case mapping and character classes: only ASCII letters change case. The Unicode mappings of `toLowerCase` and `toUpperCase` are left out (for example the Kelvin sign becoming `k`, and `ß` becoming `SS`). Strings are sequences of code points, not UTF-16 code units. `\s` is the exact ECMAScript set of whitespace and line terminators.
- Keys of a plain JavaScript object are modelled as a Dafny `map`. Prototype keys (a category named `constructor`) and the special ordering of integer-like keys are not modelled. `Grouping.KeyOrder` gives the creation order of the other keys.
- Price is stored as the submitted text, or null. The decimal column type is not modelled.
- `console.error` logging is not modelled.
- `getAllShop` is a pass-through listing of the shops table and is not modelled.
- `slugify` receives a string here. `createShop` calls it only on a validated, non-empty name, so its `!text` branch for a missing value is reached only as the empty string.
- The `ShopList` component's JSX, and the pages and routes that render these results, are not part of this model.
