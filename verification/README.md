# Book recommendation demo: accounts, catalog search and the rating store

This project models, in Dafny, the three pieces of logic in the book
recommendation demo that can be stated precisely:

- **Accounts** (`BookRecomendationApp.py`): passwords are stored as the
  Base64 text of a 16-byte salt followed by the PBKDF2-HMAC-SHA256 key
  derived from the password and that salt. The module-level `users`
  dictionary maps user names to stored hashes. It starts with an `admin`
  account. Registration rejects empty fields and taken names. Login
  succeeds when the user exists and the password verifies.
- **Catalog search** (`BookRecomendationApp.py`, the inner `search_books`):
  a row is kept when the lower-cased query occurs in the lower-cased title or
  author. The first ten kept rows are shown, in catalog order.
- **Rating store** (`addrating.py`): `add_or_update_rating` validates the
  rating and upserts the `(user_id, book_id)` document in the
  `user_ratings` collection. `get_user_rating` looks a document up.
  `validate_user_ratings_collection` checks the collection and its first
  document.

Files:

- `wrappers.dfy`: `Option`.
- `base64.dfy`: Base64 with the standard alphabet and padding (section 4
  of RFC 4648), with a proof that decoding undoes encoding. The stored-hash
  round trip rests on this proof, not on an assumption.
- `passwords.dfy`: `HashPassword`, `VerifyPassword` and the salt‖key layout.
  PBKDF2 (section 5.2 of RFC 8018) is a function-typed parameter `kdf`,
  so it is deterministic but otherwise unknown. The random salt is a
  parameter.
- `auth.dfy`: `HandleLogin` and the `UserTable` class, whose
  `HandleRegistration` method updates the `users` map in place. The
  notifications and page changes become returned notice values.
- `search.dfy`: the row filter, the ten-row head and the search result.
- `ratings.dfy`: the `RatingStore` class with `AddOrUpdateRating`, plus
  `GetUserRating` and `ValidateUserRatingsCollection` as functions over
  the stored map.

The model follows the code, not the repository's stated intent, where
the two differ:

- `isinstance(rating, int)` accepts Python's `True`. So `True` passes the
  1-to-5 check and is stored as a boolean (`AddRating.IsValidRating`).
- The notification texts are the ones `handle_registration` shows. The
  repository's tests expect longer texts.
- A cell that is empty in the loaded table reads as `"nan"` to the
  search, because `str()` of a NaN gives that text. Only a missing column
  reads as `""`.

## Model

| member | source | states |
|---|---|---|
| `Base64.Encode` | BookRecomendationApp/BookRecomendationApp/BookRecomendationApp.py:17 | the text comes in whole four-character groups, and every character is a digit of the alphabet or the `=` pad |
| `Base64.EncodeLength` | BookRecomendationApp/BookRecomendationApp/BookRecomendationApp.py:17 | four characters for every three bytes, with the last group rounded up |
| `Base64.Decode` | BookRecomendationApp/BookRecomendationApp/BookRecomendationApp.py:21 | only text whose length is a multiple of four decodes |
| `Base64.DecodeEncode` | BookRecomendationApp/BookRecomendationApp/BookRecomendationApp.py:17-21 | decoding the encoding of any byte sequence gives back that sequence |
| `PasswordUtils.SplitAt` | BookRecomendationApp/BookRecomendationApp/BookRecomendationApp.py:22-23 | Python's `d[:n]`, `d[n:]`: the parts rejoin to `d`; the first has `n` bytes when `d` is long enough, and otherwise the second is empty |
| `PasswordUtils.HashPassword` | BookRecomendationApp/BookRecomendationApp/BookRecomendationApp.py:14-17 | the stored text decodes to the salt followed by the PBKDF2 key of the password under that salt with 100000 iterations |
| `PasswordUtils.VerifyPassword` | BookRecomendationApp/BookRecomendationApp/BookRecomendationApp.py:20-25 | only text that decodes can verify; its full meaning (accepted exactly when the attempt derives the stored key) is carried by `PasswordUtils.VerifyAgainstHash` |
| `PasswordUtils.SplitRecoversSaltAndKey` | BookRecomendationApp/BookRecomendationApp/BookRecomendationApp.py:15-23 | splitting the decoded hash at SALT_SIZE gives exactly the salt and the key that were concatenated |
| `PasswordUtils.VerifyAgainstHash` | BookRecomendationApp/BookRecomendationApp/BookRecomendationApp.py:20-25 | an attempt verifies against a stored hash if and only if it derives the same key under the stored salt |
| `PasswordUtils.VerifyOwnHash` | BookRecomendationApp/BookRecomendationApp/BookRecomendationApp.py:14-25 | every password verifies against its own hash, whatever the salt |
| `Auth.HandleLogin` | BookRecomendationApp/BookRecomendationApp/BookRecomendationApp.py:54-59 | the result is either the invalid-credentials notice or a welcome for that very user, who is in the table; when login succeeds is carried by `Auth.LoginMatchesStoredKey` |
| `Auth.LoginMatchesStoredKey` | BookRecomendationApp/BookRecomendationApp/BookRecomendationApp.py:54-59 | on a table whose hashes came from HashPassword, login welcomes the user if and only if the name is present and the attempt derives that user's stored key |
| `Auth.LoginAfterRegistration` | BookRecomendationApp/BookRecomendationApp/BookRecomendationApp.py:55-69 | after a name is stored with the hash of a password, logging in with that name and password succeeds |
| `Auth.AdminLogsIn` | BookRecomendationApp/BookRecomendationApp/BookRecomendationApp.py:30-32 | the default account logs in with "admin123" |
| `Auth.UserTable.constructor` | BookRecomendationApp/BookRecomendationApp/BookRecomendationApp.py:30-32 | the table starts with exactly the "admin" entry, hashed from "admin123" |
| `Auth.UserTable.HandleRegistration` | BookRecomendationApp/BookRecomendationApp/BookRecomendationApp.py:61-71 | empty name or password: rejected, table unchanged; taken name: rejected, the existing hash kept; otherwise exactly the new name is added, mapped to the hash of the password, and every other entry is unchanged; every stored hash stays the hash of a known password under a 16-byte salt |
| `CatalogSearch.Lower` | BookRecomendationApp/BookRecomendationApp/BookRecomendationApp.py:114-116 | lower-casing keeps the length, maps each character on its own, and leaves no upper-case letter |
| `CatalogSearch.LowerIdempotent` | BookRecomendationApp/BookRecomendationApp/BookRecomendationApp.py:114-116 | lower-casing twice is lower-casing once |
| `CatalogSearch.ContainsIff` | BookRecomendationApp/BookRecomendationApp/BookRecomendationApp.py:116 | Python's `q in s` holds if and only if `q` occurs at some index of `s` |
| `CatalogSearch.Matches` | BookRecomendationApp/BookRecomendationApp/BookRecomendationApp.py:116 | the empty query matches every row |
| `CatalogSearch.MatchesIff` | BookRecomendationApp/BookRecomendationApp/BookRecomendationApp.py:116 | a row matches exactly when the query occurs in its lower-cased title or in its lower-cased author (a missing column read as "") |
| `CatalogSearch.Filter` | BookRecomendationApp/BookRecomendationApp/BookRecomendationApp.py:116 | every kept row is a catalog row that matches the query |
| `CatalogSearch.FilterKeepsMatches` | BookRecomendationApp/BookRecomendationApp/BookRecomendationApp.py:116 | every catalog row that matches the query is kept |
| `CatalogSearch.FilterAppend` | BookRecomendationApp/BookRecomendationApp/BookRecomendationApp.py:116 | filtering a concatenation is the concatenation of the filtered parts, so kept rows stay in catalog order |
| `CatalogSearch.FilterCount` | BookRecomendationApp/BookRecomendationApp/BookRecomendationApp.py:116 | a matching row is kept as many times as it occurs in the catalog; a non-matching row never |
| `CatalogSearch.FilterEmptyQuery` | BookRecomendationApp/BookRecomendationApp/BookRecomendationApp.py:114-116 | the empty query keeps the whole catalog |
| `CatalogSearch.QueryText` | BookRecomendationApp/BookRecomendationApp/BookRecomendationApp.py:114 | no query text and empty query text both give ""; otherwise each character of the query becomes its lower-case form, so the query keeps its length, its non-letters and no upper-case letter |
| `CatalogSearch.SearchBooks` | BookRecomendationApp/BookRecomendationApp/BookRecomendationApp.py:113-122 | "no matching books" exactly when no catalog row matches; otherwise between 1 and 10 rows are shown, and they are a prefix of the filtered rows, all of them when fewer than 10 match |
| `CatalogSearch.SearchIgnoresQueryCase` | BookRecomendationApp/BookRecomendationApp/BookRecomendationApp.py:114 | a query and its lower-cased form give the same result |
| `CatalogSearch.SearchWithoutQuery` | BookRecomendationApp/BookRecomendationApp/BookRecomendationApp.py:114-122 | with no query text, or an empty one, the first ten catalog rows are shown |
| `AddRating.IsValidRating` | addrating.py:61-65 | a rating passes the check exactly when it is an integer from 1 to 5, or True |
| `AddRating.Upsert` | addrating.py:70-82 | the key is present afterwards with the new rating and `now` as modified_date; created_date is `now` for a new document and kept for an existing one; every other key keeps its document |
| `AddRating.UpsertTwice` | addrating.py:70-82 | two ratings of the same (user, book) leave one document holding the second rating, the second time, and the first call's creation date |
| `AddRating.UpsertMessage` | addrating.py:84 | "Rating updated successfully" exactly when a document for the key already existed, "Rating added successfully" exactly when none did |
| `AddRating.RatingStore.AddOrUpdateRating` | addrating.py:47-95 | an invalid rating gives error 400 with the store unchanged; an exception raised by the database call gives error 500 with its text, and the store is the upsert of the old store when the server had already applied the write, else unchanged; without an exception the store becomes the upsert of the old store, with status 200 and "Rating updated successfully" exactly when the key was already present, else "Rating added successfully" |
| `AddRating.RatingStore.constructor` | addrating.py:9 | the store holds the given documents |
| `AddRating.GetUserRating` | addrating.py:97-130 | 404 "No rating found for this book" exactly when the key is absent; 200 with the stored rating, created_date and modified_date exactly when the document has a rating and a creation date; every other outcome is error 500 |
| `AddRating.GetAfterUpsert` | addrating.py:70-119 | after a rating is stored, the lookup returns it with `now` as modified_date, except for an old document that has no created_date, whose lookup fails with 500 |
| `AddRating.GetOtherKeyAfterUpsert` | addrating.py:70-71 | storing one key's rating does not change the lookup of any other key |
| `AddRating.ValidateUserRatingsCollection` | addrating.py:11-45 | 200 exactly when nothing raised, the collection exists, and a first document exists holding user_id, book_id and rating; every other outcome is error 500 |
| `AddRating.UpsertedDocumentValidates` | addrating.py:26-39 | a document written by the upsert passes the collection check as first document |

## Left out

- The NiceGUI pages, `safe_navigate`, `ui.notify` and `ui.run`. Notifications become notice values. Their `Destination` names the page a success navigates to.
- Loading `books.csv` with pandas and the dashboard's "Dataset not loaded" label. The catalog is an input sequence of rows. The rows' other columns are only displayed.
- PBKDF2-HMAC-SHA256, `os.urandom` and the UTF-8 encoding of the password. The first and last are inside the `kdf` parameter. The random salt is an argument.
- "A wrong password fails" depends on PBKDF2 having no collisions. `PasswordUtils.VerifyAgainstHash` states it conditionally: a different derived key is rejected.
- That a stored hash differs from the password text is not stated: `kdf` is an arbitrary function, so for some `kdf` a password can equal the Base64 text of its own salt and key, and the property cannot be proved without modelling PBKDF2.
- Base64.Decode: accepts only canonical-shape text. Python's decoder also skips characters outside the alphabet. This differs only on text that `Encode` did not produce.
- PasswordUtils.VerifyPassword: on text that is not Base64, Python raises and the model returns false. Every hash a `UserTable` stores decodes, so login never reaches that case.
- CatalogSearch.Lower: lower-cases the ASCII letters only, not Python's full Unicode case mapping.
- The MongoDB connection, `jsonify` and `datetime.now()`. The clock reading is the `now` argument. An exception the driver raises is the `failure` argument, carrying its text; for `add_or_update_rating` it also says whether the upsert had already reached the server.
- Documents without user_id or book_id, or two documents with the same key, cannot be represented in the keyed map.
- Which document `find_one()` returns first is not modelled. `ValidateUserRatingsCollection` takes the collection names and the first document's field names as a snapshot.
- `passwordSecurity.py` is a copy of the password functions. `AddUserRating.py`, `UserRating.py`, `signinpage.py` and `data_clearance.py` are broken or console-only scripts. None of them is part of this model.
- The retrying metadata fetchers and the recommendation ranking are not among the modelled files and are not part of this model.
