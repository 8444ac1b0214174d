# User routes of node-api-mysql1, modelled in Dafny

The repository is a small REST API for user records: an Express router
(`src/routes/user.js`) whose five handlers create, list, fetch, update and
delete rows of a `User` table through the Prisma client. This project models
that router:

- `Pagination` — the arithmetic of `GET /users`: the `parseInt(...) || default`
  fallbacks for `page` (1) and `pageSize` (10), `skip = (page - 1) * pageSize`,
  `take = pageSize`, `totalPages = Math.ceil(count / pageSize)`, the
  `nextPage` / `prevPage` link strings and the response envelope. `Window` reads
  the `findMany({skip, take})` answer as a slice of the rows in datastore order.
- `Decimal` — how a template literal writes an integer below 2^53 into a link
  (plain decimal digits), with a reader that recovers exactly that text (used to
  show that a link carries the page it names).
- `Validation` — the rule chain in front of `POST /users` (valid email,
  password of at least 6 characters, non-empty name) and the ordered error
  array it reports.
- `UserRoutes` — class `UserTable`: the table as a map from id to
  `User(email, password, name)`, and one method per handler giving the status
  code, the body and the new table. Three things are inputs of the method:
  whether each datastore call throws (and its message), the id a create
  assigns, and the rows `findMany` returns. Everything else a call answers or
  changes is read off the table, under the assumptions listed in
  "## Left out". A ghost set `issued` holds every id ever assigned, and a
  ghost log `writes` records each write sent to the datastore.

Facts about `src/routes/user.js` that the model keeps:
- the password is stored exactly as submitted (it is not hashed);
- there is no photo upload and no photo-URL rewriting;
- the default `page` is 1 and the default `pageSize` is 10;
- update sends the `email`, `password` and `name` the body carries (one left out is `undefined` and stays as stored), with no validation; no other body field is sent.

## Model

| member | source | states |
|---|---|---|
| Pagination.OrDefault | src/routes/user.js:42-43 | a NaN parse (`None`) and a parsed 0 both give the fallback; any other parsed value, negative ones included, is kept |
| Pagination.Plan | src/routes/user.js:42-51 | page and pageSize are never 0, skip is `(page - 1) * pageSize`, take is pageSize |
| Pagination.PlanDefaults | src/routes/user.js:42-44 | with no usable query parameters the query is page 1, pageSize 10, skip 0, take 10 |
| Pagination.TotalPages | src/routes/user.js:53 | for pageSize > 0, `(totalPages - 1) * pageSize < count <= totalPages * pageSize`, totalPages >= 0, and totalPages is 0 exactly when count is 0; for a negative pageSize totalPages <= 0 with the mirrored bounds |
| Pagination.TotalPagesIsLeast | src/routes/user.js:53 | every page count t with `t * pageSize >= count` is at least totalPages, so totalPages is the least integer at or above `count / pageSize` |
| Pagination.Link | src/routes/user.js:59-62 | the link starts with `/users?page=` and holds exactly one `&`, right after the page number, where `&pageSize=` begins |
| Pagination.NextPage | src/routes/user.js:56-60 | the link is present exactly when `page < totalPages`, and then is `/users?page=<page+1>&pageSize=<pageSize>` |
| Pagination.PrevPage | src/routes/user.js:61-63 | the link is present exactly when `page > 1`, and then is `/users?page=<page-1>&pageSize=<pageSize>` |
| Pagination.Paginate | src/routes/user.js:53-72 | the envelope reports `count` = the datastore count, `currentPage` = the planned page, the page count, both links under their conditions, and the fetched rows unchanged |
| Pagination.LinksAtBoundaries | src/routes/user.js:58-63 | for a page in `1..totalPages`, nextPage is null exactly on the last page and prevPage exactly on the first |
| Pagination.LinkRoundTrip | src/routes/user.js:59-62 | reading a link back gives exactly the page and pageSize it was written from |
| Pagination.FollowNextPage | src/routes/user.js:42-60 | within the safe-integer range, requesting the nextPage link's query plans page + 1 with the same pageSize (page -1 leads to page 1, because 0 falls back) |
| Pagination.FollowPrevPage | src/routes/user.js:42-63 | within the safe-integer range, requesting the prevPage link's query plans exactly page - 1 with the same pageSize |
| Pagination.Window | src/routes/user.js:48-51 | the slice for skip, take >= 0 has at most take rows, is empty past the end, and its k-th row is row skip + k of the datastore order |
| Pagination.RowIsOnPage | src/routes/user.js:44-53 | row i of count rows lies on page `i / pageSize + 1`, which is between 1 and totalPages, inside that page's skip range |
| Pagination.RowPageUnique | src/routes/user.js:44-53 | no row lies in the skip range of two different pages |
| Pagination.PageWindowNonEmpty | src/routes/user.js:44-53 | the window of page p (skip `(p - 1) * pageSize`, take pageSize) is non-empty exactly when p <= totalPages |
| Pagination.PageWindowFull | src/routes/user.js:44-53 | every page before the last one holds exactly pageSize rows |
| Decimal.IntToString | src/routes/user.js:59-62 | `${n}` for an integer: non-empty, a leading `-` exactly for a negative number, all other characters decimal digits |
| Decimal.IntRoundTrip | src/routes/user.js:59-62 | the decimal text of an integer reads back to that integer |
| Decimal.IntToStringInjective | src/routes/user.js:59-62 | two different integers never render to the same text |
| Validation.LongEnough | src/routes/user.js:11 | `isLength({ min: 6 })` passes exactly when the password has at least 6 characters; a passing password is never empty |
| Validation.NotEmpty | src/routes/user.js:13 | `notEmpty()` fails only on the empty string |
| Validation.CreateErrors | src/routes/user.js:9-19 | the error array is empty exactly when all three rules pass; it holds the email, password and name error exactly when that rule fails, nothing else, each with its fixed message, the submitted value, type `field` and location `body`, in declaration order |
| UserRoutes.UserTable.Create | src/routes/user.js:7-37 | a failed validation answers 400 with the whole error array and leaves table and write log untouched; otherwise one create is sent, a thrown error answers 400 with its message and changes nothing, success stores the user as submitted under a never-issued id and answers 201 with the row; a 201 implies all rules passed |
| UserRoutes.UserTable.List | src/routes/user.js:41-76 | a throwing count or findMany answers 400 with its message; otherwise 200 with the envelope of `Paginate` over the table's row count; 200 exactly when both calls succeed; with a positive pageSize the envelope holds at most pageSize users, given that findMany answers at most take rows |
| UserRoutes.UserTable.Get | src/routes/user.js:78-90 | a throwing lookup answers 400 with its message, a present row 200 with the row unchanged, an absent one 404 with "User not found" |
| UserRoutes.UserTable.Update | src/routes/user.js:92-104 | the update is always sent; a throw or an absent row answers 400 with "Error updating user" and changes nothing; otherwise the supplied fields are replaced, the others kept, and 200 answers the new row |
| UserRoutes.UserTable.Delete | src/routes/user.js:106-114 | the delete is always sent; success removes exactly that row and answers 204 with no body; a throw, or the datastore's error for an absent row, answers 400 with the message and changes nothing |
| UserRoutes.Patch | src/routes/user.js:94-98 | the stored user after a successful update: each of `email`, `password`, `name` the body carries replaces the stored one, one it leaves out keeps its stored value |
| UserRoutes.PatchIdempotent | src/routes/user.js:96-98 | sending the same update twice stores the same user as sending it once |
| UserRoutes.CreateThenGet | src/routes/user.js:7-90 | a valid create followed by a lookup of its id answers 201 and then 200 with the same row |
| UserRoutes.DeleteThenGet | src/routes/user.js:78-114 | after a successful delete the id is not found (404) and a second delete fails (400) |

## Left out

- `src/index.js` (Express setup, Swagger UI, the static `/uploads` mounts, `app.listen`): framework configuration with no logic.
- Prisma itself: SQL, id generation, unique constraints, and what `findMany` does with a negative skip or take. Whether a call throws, create's id and findMany's rows are inputs of the handler methods; the rest of the datastore's behaviour is assumed, as follows:
  - a created id was never issued before;
  - `count()` answers the number of rows in the table;
  - `findUnique` answers the stored user for a present id and null for an absent one;
  - a successful `update` replaces the supplied fields and keeps the ones the payload leaves `undefined` (`UserRoutes.Patch`);
  - a successful `delete` removes exactly that row;
  - updating or deleting an absent row throws (the delete's message is the table's `missingRowMessage`, since the ORM's text is not visible);
  - a call that throws leaves the table unchanged.
- `UserRoutes.UserTable.List`: takes the rows `findMany` returned as an input, known only to be at most take rows when take is not negative, and does not relate them to the table; `Pagination.Window` states the slice reading separately, for non-negative skip and take only.
- The `isEmail` check: an abstract boolean input. The entries of the error array carry `type`, `value`, `msg`, `path` and `location` as current express-validator versions write them; the library version is not part of this model. The validator library behind `isLength({min: 6})` is not part of this model; the model counts the password's length in Dafny characters (Unicode scalar values), which may differ from the library's own count.
- `parseInt` string parsing and the conversion `Number(id)`: the parsed query values are `Option<int>` inputs and the id is an integer key; a non-numeric id is covered by the lookup's fault input.
- `Decimal.IntToString`, `Pagination.FollowNextPage`, `Pagination.FollowPrevPage`: page, pageSize and the values derived from them are exact unbounded integers written as plain digits. JavaScript numbers are doubles, which round `page ± 1` and `(page - 1) * pageSize` above 2^53 and which `${n}` writes in exponent form from 1e21 on (`1e+21`, read back by `parseInt` as 1). So the link text and the round trip match the source only while these values stay below 2^53; the two lemmas require that bound (`Pagination.SafeInteger`).
- `Math.ceil` over floating-point division: modelled as exact ceiling division, which agrees with it for counts below 2^53; `Infinity` from very long digit strings is not modelled.
- async/await, concurrent requests, JSON serialisation and the HTTP response plumbing: the model is sequential and a response is a status code with a body value.
- Password hashing, photo upload and photo-URL rewriting: not present in `src/routes/user.js`.
