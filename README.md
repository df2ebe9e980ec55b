# Users and products collection stores

This project is a Dafny model of the two collection handlers of a small REST
API. Each handler works on an in-memory collection.

- **Users** (`app/api/users/route.js`). The collection is a process-wide list of
  `{id, name, email, age}` records, seeded with three users. Its handlers are:
  - list, with optional `minAge`/`maxAge` bounds and case-insensitive
    `name`/`email` substring filters, all AND-combined;
  - create, which validates the required fields, the email pattern, a
    positive age and email uniqueness, then appends with `id = length + 1`;
  - partial update, addressed by `body.id`, which re-validates a new email
    (format, and uniqueness against other ids) and a new age, then writes one
    slot;
  - delete by `?id=`, which removes every record with that id.
- **Products** (`app/api/products/route.js`). The collection is a process-wide
  list of `{id, name, price}` records. Its handlers are list (price bounds and a
  name substring) and create (truthy name and price, positive numeric price,
  `id = length + 1`).

How the model is laid out:

- Module `Values` holds the loosely typed JSON body fields (`Value`),
  JavaScript truthiness, the query numbers after `parseInt`/`parseFloat`
  (`Parsed`: a number or NaN) and the unparseable-body case (`Request`).
- Module `Text` holds the `\s` class of JavaScript regular expressions,
  lower-casing and `includes`.
- Module `Sequences` holds `Array.prototype.filter` with and without a throwing
  callback, and the order-preserving subsequence relation.
- Module `Email` holds the regular expression `^[^\s@]+@[^\s@]+\.[^\s@]+$` twice.
  `MatchesPattern` is the language read off its syntax. `IsEmail` is a check that
  splits at the first `@`, proved equal to it.
- Modules `Users` and `Products` each hold the records, the list function and a
  store class. The class keeps the collection as a `seq` field, and its create,
  update and delete methods change that field.

The list handlers only read the collection, so they are functions. Their
contracts characterise the result completely:

- it is an order-preserving subsequence of the collection;
- a record is in it exactly when it passes every active filter (`Matches`);
- each record appears exactly as often as in the collection;
- with no filters, the result is the whole collection.

Every mutating method states its whole outcome and the new collection. A
rejected request leaves the collection unchanged. A successful create appends
exactly one record, numbered one past the old length. An update writes exactly the slot of
the first record with the given id, keeps that id and keeps every field the
body omits. A delete keeps, in order, exactly the records with a different id.
All of them preserve the store invariant: every stored email matches the
pattern and every stored age (or price) is positive. All of them also preserve
pairwise-distinct emails, and for update this needs distinct ids beforehand.

Where the code and a plain reading of the data model differ, the model follows
the code:

- Ids are not kept unique. Numbering by length reuses an id after a delete, and
  `DeleteThenCreateReusesId` proves this from the seed.
- Emails are not kept unique either, although create and update both check
  them. Once two records share an id, an update of that id may take the later
  record's email: the update's uniqueness check skips records with the same id,
  and the write goes to the first of them. From the seed, deleting id 2,
  creating a user, then updating id 3 to that user's email leaves two records
  with one email (`DeleteThenCreateReusesId`, `UpdateDuplicatesEmail`). This is
  why the update keeps emails distinct only when ids were distinct.
- Names are never type-checked. A create accepts any truthy JSON value as the
  name, and an update accepts any value at all (an empty string, `null`, a
  number). A stored name is therefore a `Value`. A list request with a `name`
  filter then throws on such a record, because `toLowerCase` is not defined on
  it. The model returns `Crashed` in that case. The server would answer with
  an error the handler never produces itself.
- A query bound that does not parse (NaN) is not ignored: every comparison with
  it is false, so that filter removes every record.

## Model

| member | source | states |
|---|---|---|
| Sequences.Filter | app/api/users/route.js:22 | `filter` keeps exactly the elements satisfying the callback, each as often as before, in their original order |
| Sequences.TryFilter | app/api/users/route.js:32-34 | `filter` with a callback that can throw: it throws exactly when some element makes the callback throw; otherwise it is an ordinary filter by the callback's answer |
| Sequences.SubsequenceKeepsKeysDistinct | app/api/users/route.js:193 | removing records cannot make two of the remaining emails equal |
| Values.Truthy | app/api/users/route.js:53 | `!v` at the required-field tests (also users :109 and products :45): the falsy JSON values are exactly `0`, `""`, `false` and `null` |
| Values.PositiveNumber | app/api/users/route.js:70 | `typeof v === 'number' && v > 0` (also users :153 and products :53); every value it accepts is truthy |
| Values.AtLeast | app/api/users/route.js:22 | `x >= bound` (also products :21): false for a NaN bound, true when `x` equals the bound |
| Values.AtMost | app/api/users/route.js:27 | `x <= bound` (also products :26): false for a NaN bound; for a number bound, every `x` satisfies `x <= bound` or `x >= bound` |
| Text.IsSpace | app/api/users/route.js:61 | the `\s` class of the pattern: it holds for space, tab, line feed and carriage return, and never for `@`, `.` or an ASCII letter |
| Text.Lower | app/api/users/route.js:33 | `toLowerCase` (also :40 and products :32): same length, each character lowered on its own |
| Text.LowerIdempotent | app/api/users/route.js:33 | lowering a lowered string changes nothing |
| Text.Contains | app/api/users/route.js:33 | `includes` (also :40 and products :32): the empty needle is always found, and a needle longer than the haystack never is |
| Text.ContainsAt | app/api/users/route.js:33 | `includes` holds exactly when the needle occurs at some offset of the haystack |
| Email.IsEmail | app/api/users/route.js:61-62 | the address check that splits at the first `@` accepts exactly the strings in the language of `^[^\s@]+@[^\s@]+\.[^\s@]+$` |
| Email.EmailShape | app/api/users/route.js:61 | an address is accepted exactly when it has no whitespace, exactly one `@` which is not first, and after the `@` a `.` with a character on each side |
| Users.SeedWellFormed | app/api/users/route.js:4-8 | every seed user has an email matching the pattern and a positive age |
| Users.AgeFiltered | app/api/users/route.js:20-28 | the `minAge`/`maxAge` stages keep exactly the users within the given inclusive bounds, in order; with neither bound they keep everything |
| Users.AgeAndNameFiltered | app/api/users/route.js:20-35 | the age stages followed by the `name` stage throw exactly when a name filter is given and a user within the age bounds has a non-string name; otherwise they keep, in order and with multiplicity, exactly the users within the bounds whose name mentions the term |
| Users.ListUsers | app/api/users/route.js:13-42 | the listed users are an order-preserving subsequence, holding exactly the users passing every active filter with their multiplicity; with no filter the result is the whole collection; a `name` filter throws exactly when a user within the age bounds has a non-string name |
| Users.Seed | app/api/users/route.js:4-8 | the three seed users, numbered 1 to 3 by position, all with positive ages |
| Users.EmailTest | app/api/users/route.js:62 | `emailRegex.test(body.email)` (also :137) holds exactly for a string in the pattern's language; a number, boolean or null converts to a string without `@` and fails |
| Users.HasId | app/api/users/route.js:116 | `u.id === v` (also :144 and :184): only the number equal to the id matches, never a string such as `"3"` |
| Users.IndexOfId | app/api/users/route.js:116 | `findIndex` by strict id equality gives the first matching position, or -1 exactly when no record matches |
| Users.EmailTaken | app/api/users/route.js:78 | `users.some(u => u.email === e)`: some position holds that email |
| Users.EmailTakenByOther | app/api/users/route.js:144 | the update's `some` also requires another id; it implies `EmailTaken`, and the two agree when no record carries the id |
| Users.WithoutId | app/api/users/route.js:193 | `users.filter(u => u.id !== id)` keeps, in order and with multiplicity, exactly the records with another id, and is shorter whenever some record carries the id |
| Users.ReplaceKeepsWellFormed | app/api/users/route.js:134-160 | writing a record with a matching email and a positive age into one slot keeps every stored record well-formed |
| Users.ReplaceKeepsEmailsDistinct | app/api/users/route.js:143-160 | with distinct ids, writing into a slot a record that keeps the slot's id and whose email is unchanged or held by no record with another id keeps emails distinct |
| Users.UserStore.constructor | app/api/users/route.js:4-8 | the store starts with the three seed users, whose ids and emails are pairwise distinct and well-formed |
| Users.UserStore.List | app/api/users/route.js:11-45 | listing reads the collection and returns the filter chain's result without changing anything |
| Users.UserStore.Create | app/api/users/route.js:48-102 | create: malformed body, missing or falsy field, bad email, non-positive or non-numeric age and duplicate email are rejected, in that order, each leaving the collection unchanged; otherwise it appends exactly `{id, name, email, age}` with id one past the old length; it keeps the invariant and distinct emails |
| Users.UserStore.Update | app/api/users/route.js:105-169 | update: malformed body, falsy id, unknown id, bad or foreign email and bad age are rejected in that order with the collection unchanged; otherwise only the first slot with that id changes, to its old record with the given fields replaced and the id kept; with distinct ids, distinct emails stay distinct |
| Users.UserStore.Delete | app/api/users/route.js:172-205 | delete: a NaN or zero id is a validation error, an unknown id is not found, both leaving the collection unchanged; otherwise the collection becomes the shorter order-preserving subsequence holding exactly the records with another id, each as often as before; distinct emails stay distinct |
| Users.SeedMinAgeScenario | app/api/users/route.js:18-23 | on the seed data, `minAge=28` lists María and then Carlos |
| Users.CreateCollides | app/api/users/route.js:87-93 | whenever a stored record already carries the id one past the length, a valid create with a fresh email succeeds and leaves two records with that id |
| Users.UpdateDuplicatesEmail | app/api/users/route.js:116-160 | when two records share an id, updating that id to the later record's email passes both email checks and leaves two records with one email |
| Users.DeleteThenCreateReusesId | app/api/users/route.js:87-93 | after deleting user 2 from the seed, creating any valid new user leaves two records sharing id 3, and then updating id 3 to the new user's email leaves two records sharing an email |
| Products.Seed | app/api/products/route.js:4-8 | the three seed products, numbered 1 to 3 by position, all with positive prices |
| Products.PriceFiltered | app/api/products/route.js:19-27 | the `minPrice`/`maxPrice` stages keep exactly the products within the given inclusive bounds, in order; with neither bound they keep everything |
| Products.PriceAndNameFiltered | app/api/products/route.js:19-34 | the price stages followed by the `name` stage throw exactly when a name filter is given and a product within the price bounds has a non-string name; otherwise they keep, in order and with multiplicity, exactly the products passing every active filter |
| Products.ListProducts | app/api/products/route.js:13-34 | the listed products are an order-preserving subsequence, holding exactly the products passing every active filter with their multiplicity; with no filter the result is the whole collection; the `name` filter throws exactly when a product within the price bounds has a non-string name |
| Products.ProductStore.constructor | app/api/products/route.js:4-8 | the store starts with the three seed products, all with positive prices |
| Products.ProductStore.List | app/api/products/route.js:11-37 | listing reads the collection and returns the filter chain's result without changing anything |
| Products.ProductStore.Create | app/api/products/route.js:40-76 | create: malformed body, missing or falsy name or price, and non-numeric or non-positive price are rejected in that order with the collection unchanged; otherwise it appends exactly `{id, name, price}` with id one past the old length and keeps every price positive |

## Left out

- HTTP transport is not modelled: `NextResponse.json`, URL parsing and async. Outcomes are datatypes. `Status` and `Message` map them to the status codes and the Spanish message texts.
- Reading the body as JSON is not modelled. A body that cannot be parsed, or that parses to `null` (so reading a field throws), is the single `Unparseable` request. Both handlers turn it into `MalformedRequest`.
- `parseInt`/`parseFloat` are not modelled. A query bound or id arrives already parsed, as a number or NaN. A missing or empty bound arrives as `None`. Parsed numbers are `real`, so the model does not use the fact that `parseInt` yields integers.
- Floating point is not modelled. Ages and prices are `real`, so they are finite and exact. JSON cannot carry NaN, so no body value is NaN.
- Infinite values are left out. A body number too large for a double (`1e400`) is read as `Infinity`, passes the positive-number test and is stored as an age or a price. A query bound such as `?maxPrice=1e999` or `?minPrice=Infinity` parses to an infinity. The model's ages, prices and bounds are finite reals.
- `toLowerCase` lowers only ASCII capitals and the Latin-1 capitals U+00C0 to U+00DE, except the multiplication sign U+00D7. The rest of Unicode case mapping is left out.
- The email check converts a non-string value to a string first. The model treats every object and array as failing it. A JSON array holding one valid address string would pass in JavaScript, and it would be stored as an array.
- The item handlers `app/api/users/[id]/route.js` and `app/api/products/[id]/route.js` are not part of this model. They hold read, update and delete by path id.
- Concurrency between requests is left out. Each handler runs as one atomic step.
- The scenario `GET /products?name=lap` on the seed data is not proved, because evaluating the lower-casing and substring search on literal strings is beyond the verifier's resource limit.
