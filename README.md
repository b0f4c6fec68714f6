# Wiki platform: page store, token gate, user store and dashboard search

A Dafny model of the core of a three-service wiki:

- **auth** (identity service): a user table with `register`, a `login` route that
  issues token claims `{user, exp = now + 3600}`, and a `verify` route that turns the
  outcome of decoding a token into 200 "valid" or 401 "invalid".
- **wiki** (content service): a catalog table and a page table, and the five page
  routes (create, list, get, edit, delete). Each route first runs `verify_token`,
  which normalises the Authorization header and asks the identity service once.
- **web** (front end): the dashboard's case-insensitive search over the fetched page
  list, and the blank-title guards in front of the create and edit requests.

Modules, one per concern:

| file | module | what it holds |
|---|---|---|
| wrappers.dfy | `Wrappers` | `Option`, and `Field` (a JSON key absent, null or given) with `GetOr`, Python's `dict.get(key, default)` |
| seqs.dfy | `Seqs` | order-preserving `Filter` and `IsSubsequence` |
| text.dfy | `Text` | Python's `str.split(sep)`, `str.lower()`, `str.strip()` and `needle in hay` |
| auth.dfy | `Auth` | `UserStore` (class over the user table), `Login`, `Verify` |
| wiki.dfy | `Wiki` | `NormalizeToken`, `VerifyToken`, `PageStore` (class over both tables, one method per route) |
| web.dfy | `Web` | `Search`, `ShowDashboard`, `CreatePageForm`, `EditPageForm` |
| services.dfy | `Services` | how the three services fit together, and two client methods (`SignUpAndLogIn`, `WriteReadDelete`) that use only the contracts |

The tables are classes whose fields the route methods reassign. The database is the
default one the content service configures, SQLite. A table is a sequence of rows in
row-id order, which is the order SQLite's scan of a row-id table returns them in. A
new row gets the id SQLite would give it: one more than the largest id present, or 1
in an empty table. The page ids stay strictly ascending (`PageStore.Valid`), and usernames
stay unique (`UserStore.Valid`, the column's `unique=True`).

Outside influences are parameters:
- what the identity service answers for a token (`remote: string -> Answer`, where
  `Unreachable` stands for any exception);
- whether PyJWT decodes a token (`decodes: string -> bool`);
- whether a commit succeeds (`commitOk`);
- the current time as integer seconds (`now`);
- the page list the front end received (`Listing`).

Facts about the code that the model keeps:
- `verify_token` makes a single call, with no retry or backoff.
- The `"Bearer "` prefix is matched case-sensitively.
- Pages have no author column, and no route checks who owns a page.
- The schema is created by `create_all`; there is no migration step.
- A `catalog_id` of `0` is stored without looking up the catalog.
- The verify route answers only "valid" or "invalid"; it does not report the token's user.

## Model

| member | source | states |
|---|---|---|
| `Wrappers.GetOr` | wiki/wiki.py:72-73 | `data.get(key, default)`: the default for an absent key, None for a JSON null, the value otherwise |
| `Seqs.Filter` | web/web.py:66 | the result holds exactly the elements that pass the test, each as many times as it occurs in the input, and none that fail it; it is no longer than the input |
| `Seqs.FilterIsSubsequence` | web/web.py:66 | filtering only deletes elements and keeps the order of the rest |
| `Seqs.FilterIdempotent` | web/web.py:66 | filtering twice by the same test equals filtering once |
| `Seqs.SubsequenceReflexive` | web/web.py:65 | every list is a subsequence of itself, so the unfiltered dashboard list keeps its order |
| `Seqs.FilterAll` | wiki/wiki.py:98-101 | a test every row passes returns the whole table, in order |
| `Text.Split` | wiki/wiki.py:53 | `s.split(sep)` has at least one part; no part contains the separator; joining the parts with the separator gives `s` back; the first part is a prefix; there is one part iff `s` has no separator |
| `Text.SplitAtFirst` | wiki/wiki.py:53 | splitting `a + sep + b` with `sep` not in `a` gives `a`, then the parts of `b` |
| `Text.FirstPartEndsAtSeparator` | wiki/wiki.py:53 | the first part is the text before the first separator, or the whole text |
| `Text.Lower` | web/web.py:57 | lower-casing keeps the length |
| `Text.LowerIdempotent` | web/web.py:57 | lower-casing twice equals lower-casing once |
| `Text.LowerEmpty` | web/web.py:65 | a query lower-cases to "" iff it is "" |
| `Text.IsSpace` | web/web.py:79 | the characters `str.isspace()` accepts: the six ASCII whitespace characters are spaces, the only other ASCII ones are the four separators U+001C to U+001F, and no letter or digit is one |
| `Text.TrimStart` | web/web.py:79 | the result is a suffix, everything dropped is whitespace, and it does not start with whitespace |
| `Text.TrimEnd` | web/web.py:79 | the result is a prefix, everything dropped is whitespace, and it does not end with whitespace |
| `Text.Strip` | web/web.py:79 | `title.strip()` is no longer than the title, neither starts nor ends with whitespace, and leaves a text that already does not unchanged |
| `Text.StripEmptyIffBlank` | web/web.py:79-80 | `not title.strip()` holds iff every character of the title is whitespace |
| `Text.Contains` | web/web.py:66 | `needle in hay`: the empty needle is in every text, and a needle that is in a text is no longer than it |
| `Text.OccursAtStart` | web/web.py:66 | an occurrence at position 0 is exactly a prefix |
| `Text.OccursShift` | web/web.py:66 | an occurrence at position i+1 is exactly an occurrence at i in the tail |
| `Text.ContainsIffOccurs` | web/web.py:66 | the substring test is true iff the needle occurs at some position (both directions) |
| `Auth.FindUser` | auth/auth.py:59 | the row found has the requested username; nothing is found iff no row has it |
| `Auth.FindUserUnique` | auth/auth.py:18 | with unique usernames, the lookup returns the one row with that name |
| `Auth.FindUserAppend` | auth/auth.py:50-52 | adding a row leaves the earlier lookups unchanged, and a new name finds the new row |
| `Auth.UserStore.constructor` | auth/auth.py:21-22 | the table starts empty, with unique names |
| `Auth.UserStore.Register` | auth/auth.py:45-54 | a taken name gives 400 "user exists" and changes nothing; a fresh name with a password appends exactly that row (200, status "ok") and names stay unique; a missing key, a null value or a failed commit gives 500 (Flask's "Internal Server Error" outside debug mode) and changes nothing |
| `Auth.Login` | auth/auth.py:56-64 | issues claims iff the name is found and the stored password equals the given one; the claims are the username and `now + 3600`; every other failure is the same 401 "invalid credentials", except a missing key (500); the table is only read |
| `Auth.Verify` | auth/auth.py:66-73 | 200 "valid" iff a token is given and decodes; otherwise 401 "invalid", a missing token included |
| `Auth.LoginSucceedsIff` | auth/auth.py:59-60 | with unique names, login succeeds iff the pair (username, password) is a row of the table |
| `Auth.LoginFailureIsUniform` | auth/auth.py:60-64 | an unknown user and a wrong password get the identical 401 reply |
| `Auth.RegisterThenLogin` | auth/auth.py:45-64 | after registering a fresh name, login with that password issues claims for it; every other name logs in exactly as before |
| `Wiki.NormalizeToken` | wiki/wiki.py:52-53 | a header starting with exactly "Bearer " becomes the text after the first space up to the next space; any other header is unchanged |
| `Wiki.BearerRoundTrip` | wiki/wiki.py:52-53 | "Bearer " + a token without spaces normalises back to that token |
| `Wiki.NormalizeIdempotent` | wiki/wiki.py:52-53 | normalising twice equals normalising once |
| `Wiki.VerifyToken` | wiki/wiki.py:48-59 | an absent or empty header is refused with no call; otherwise exactly one call is made, with the normalised token, and the request is accepted iff that call answers status 200 (any other status or an exception refuses) |
| `Wiki.MaxId` | wiki/wiki.py:84-86 | the largest id is at least every id, and it is the id of some row |
| `Wiki.NextRowId` | wiki/wiki.py:84-86 | the new row's id is above every id in the table, so it is fresh |
| `Wiki.IndexOf` | wiki/wiki.py:116 | the position found holds the page with that id; nothing is found iff no page has it |
| `Wiki.InCatalog` | wiki/wiki.py:98-101 | the query's rows are exactly the pages of the given catalog, each as often as in the table, in table order; without the argument, the whole table |
| `Wiki.RemoveExactly` | wiki/wiki.py:143-145 | removing a page's row leaves exactly the pages with other ids, with ids still ascending |
| `Wiki.ReplaceExactly` | wiki/wiki.py:131-134 | replacing a row by one with the same id keeps the ids ascending and every other page in place |
| `Wiki.Edited` | wiki/wiki.py:132-133 | a supplied title or content replaces the old value (a null content clears it); an absent key keeps the old value; id, catalog and hidden are unchanged |
| `Wiki.IsTruthy` | wiki/wiki.py:69 | `if not data`: a JSON null and the empty object are refused, and every other object passes |
| `Wiki.ChecksCatalog` | wiki/wiki.py:76 | `if catalog_id:`: the catalog is looked up only for a body that passed the emptiness test, and never for an absent, null or `0` catalog_id |
| `Wiki.PageStore.constructor` | wiki/wiki.py:28-29 | the page table starts empty over the given catalogs |
| `Wiki.PageStore.CreatePage` | wiki/wiki.py:62-89 | 401 when the token is refused; 400 for an empty body, or for a non-zero catalog_id naming no catalog; otherwise, on commit, exactly one row is appended with a fresh id, which is returned, and the title defaults to "Без названия", the content to "" and hidden to false; a null title or a failed commit rolls back (500); catalog references stay resolved unless catalog_id is 0 |
| `Wiki.PageStore.ListPages` | wiki/wiki.py:91-108 | 401 with nothing when the token is refused; otherwise exactly the pages of the given catalog (all pages without the argument), in table order |
| `Wiki.PageStore.GetPage` | wiki/wiki.py:110-122 | 401 when the token is refused; 404 iff no page has the id; otherwise that page |
| `Wiki.PageStore.EditPage` | wiki/wiki.py:124-135 | 401 leaves the table unchanged; 404 iff the id is missing; on success only that page changes, by `Edited`; a null title or a failed commit gives 500 and no change |
| `Wiki.PageStore.DeletePage` | wiki/wiki.py:137-146 | 401 leaves the table unchanged; 404 iff the id is missing; on success exactly the page with that id is gone; a failed commit gives 500 and no change |
| `Web.LoggedIn` | web/web.py:51-52 | `if not token`: logged in iff the session holds a token that is not the empty string |
| `Web.ContentText` | web/web.py:66 | `(p["content"] or "")`: the stored content, or "" for a null content |
| `Web.Matches` | web/web.py:66 | the comprehension's test: every page matches the empty query, and a match needs a title or content at least as long as the query |
| `Web.Search` | web/web.py:55-66 | an empty query returns the list unchanged; otherwise a page is kept iff it is in the list and the lower-cased query is in its lower-cased title or content, as many times as the list holds it |
| `Web.SearchKeepsExactlyMatches` | web/web.py:66 | for every query, the empty one included, a page is kept iff the lower-cased query occurs in its lower-cased title or in its lower-cased content, a null content counting as "" |
| `Web.SearchPreservesOrder` | web/web.py:66 | the search only removes pages and keeps their relative order |
| `Web.SearchIdempotent` | web/web.py:66 | searching twice with the same query equals searching once |
| `Web.SearchIgnoresQueryCase` | web/web.py:57 | a query and its lower-cased form select the same pages |
| `Web.FetchedPages` | web/web.py:59-63 | a non-200 status or an exception yields the empty page list; status 200 yields the listed pages |
| `Web.ShowDashboard` | web/web.py:49-68 | without a session token, the login page and no call; otherwise one listing call with the raw token, then the fetched pages searched by the lower-cased POST search text |
| `Web.CreatePageForm` | web/web.py:71-93 | a whitespace-only title sends nothing; a non-blank title sends exactly one create call with "Bearer <token>"; a missing title field raises; the handler always ends on the dashboard |
| `Web.EditPageForm` | web/web.py:108-127 | a whitespace-only title sends nothing; a non-blank title sends exactly one edit call with the raw token; a missing title field raises |
| `Services.AnswerOf` | wiki/wiki.py:55-56 | the content service sees status 200 iff the verify route replied 200 |
| `Services.RawTokenUnchanged` | wiki/wiki.py:52-53 | a token without spaces is sent to the verifier as it is |
| `Services.DashboardSendsSessionToken` | web/web.py:60 | the dashboard's raw session token reaches the verifier unchanged, for a token without spaces |
| `Services.CreateSendsSessionToken` | web/web.py:86 | the create form's "Bearer <token>" reaches the verifier as the session token, for a token without spaces |
| `Services.EditSendsSessionToken` | web/web.py:122 | the edit form's raw token reaches the verifier unchanged, for a token without spaces |
| `Services.GateAgreesWithVerify` | wiki/wiki.py:48-59 | with the identity service reachable, a request is admitted iff its header is non-empty and the normalised token decodes |
| `Services.CreateBodyOf` | web/web.py:83-88 | the create call's JSON has the title, and the content or null, and no catalog_id |
| `Services.FormCreateIsWellFormed` | web/web.py:83-88 | a create call from the form is never rejected as empty JSON, skips the catalog check, and stores the typed title, not the default |

## Left out

- HTTP routing, `request.json` parsing, `jsonify`, templates, sessions and redirects are transport. Handlers take parsed inputs and return a status, or a `View` with the calls they sent.
- Requests without a JSON body, on every route that reads one. What `request.json` does then depends on the Flask version: from Werkzeug 2.3 on it answers 415, on 2.1 and 2.2 it answers 400, and before that it returns `None`. Bodies are modelled as parsed JSON. On create, `Wiki.NoJson` stands for a body that is the JSON `null`, which `if not data` refuses. On edit, a `null` body would still get 404 for a missing page, because `get_or_404` runs before `data.get`; it would only fail, with 500, for a page that exists. This case is not modelled.
- JSON values of other types: a numeric title, a string `catalog_id`, a boolean. Fields are modelled as strings and integers only.
- A create body that is JSON but not an object. A falsy one (`[]`, `0`, `false`, `""`) gets 400 from `if not data`, like `Wiki.NoJson`. A truthy one (`[1]`, `5`, `true`, `"x"`) passes that test and raises at `data.get`, which gives 500. `Wiki.CreateBody` holds only `null` and objects.
- `Wiki.PageStore.ListPages`: the `catalog_id` query argument is taken as an integer, with an empty argument read as no argument. SQLite's comparison of a text argument with the integer column is not modelled: a non-numeric argument matches no page, and a padded one such as `03` matches as 3. Unlike create, a `0` here does filter, because the text "0" is truthy.
- Error message texts of the wiki routes are not modelled, only their status codes. The auth routes keep their messages: register's "ok", "user exists" and the 500 page, login's "invalid credentials", and verify's "valid" and "invalid".
- HTTP calls are oracle parameters. This covers the `requests` calls, their timeouts and the swallowed exceptions of the front end.
- The `print` of the error in `verify_token`'s exception branch (wiki/wiki.py:58) is console output. The model keeps only the refusal that follows it.
- `Auth.UserStore.Register` and `Auth.Login`: a 500 carries Flask's "Internal Server Error" page only when the service runs without debug mode. auth/auth.py:80 starts it with `debug=True`, and then the debugger answers the raised KeyError or IntegrityError with a traceback page. The status is 500 either way.
- PyJWT is not modelled. Its HS256 signing and the signature and expiry checks in `decode` are foreign code, so the decoder is a parameter. `time.time()` is a float; the model uses integer seconds.
- Prometheus gauges and counters, and the metrics threads, are observability and concurrency.
- Concurrent requests are not modelled. Each route runs alone against the tables.
- SQLAlchemy engine and session management are not modelled. A failed commit, or a session discarded after an unhandled exception, is a no-change outcome.
- The catalog cascade delete is not modelled. No route deletes a catalog, and there is no route to create catalogs either: the catalog table is a constructor argument.
- Unused columns: the user table's integer primary key and the catalog's page relationship.
- `Wiki.PageStore.CreatePage`: the new id is stated as SQLite assigns it, one more than the largest id present. The model fixes the default database of wiki/wiki.py:10. Another database named by `DATABASE_URL` may draw ids from a sequence that never reuses an id after the top row is deleted, and may scan rows in another order. Only the freshness of the id holds for every database.
- SQLite row-id allocation at the 64-bit maximum (SQLite then picks a random unused id) is not modelled.
- `Text.Lower` maps only ASCII and the Cyrillic capitals U+0400 to U+042F. Other case mappings of Python's `str.lower()` are not modelled, including those that change a string's length.
- The web routes that only forward to another service are not modelled. These are register, login, logout, delete, and the form-loading GET branch of edit.
- `wiki/models.py` is not part of this model. It repeats the wiki's table declarations and is not imported.
