# Relocation-survey admin app: validation and state-transition core

This project models, in Dafny, the parts of the Flask application `app.py`
that carry exact logic: the administrator accounts (registration, login,
logout and the `login_required` gate), the attribute catalog (`tb_atribut`
and `tb_nilai_atribut` with their add / edit / delete routes and the delete
cascade), and the CSV import of household survey records into `tb_dataset`.
The database is an immutable in-memory store of tables keyed by primary key,
and every route is a pure function from the store and the request to the new
store and a reply status.

Modules, one per concern:

- `Results` — `Option` and `Result`.
- `Tables` — a table as `map<nat, T>` plus the next key its auto-increment
  sequence hands out (a sequence that never goes back, as PostgreSQL's
  `SERIAL`; see "Left out" for SQLite); `Insert`, `Update`, `Delete`,
  `InsertAll`.
- `Accounts` — `Admin`, `Session`, `Register`, `Login`, `Logout`.
- `Attributes` — `Atribut`, `NilaiAtribut`, the six catalog handlers and the
  uniqueness invariants.
- `CsvImport` — the 14 record fields, `header_mapping`, header normalisation
  (`strip()` then `lower()`), the row-length filter and `ImportCsv`.
- `App` — the whole store, the request type, the gate (`Step`) and `Run`.

A consequence worth knowing: the upload is decoded as plain UTF-8, so a
byte-order mark stays in the first header cell and is not whitespace; a file
saved with one and starting with the `jenis bencana` column is rejected for
a header mismatch unless another column also carries that header
(`CsvImport.ByteOrderMarkKeptInHeader`).

## Model

| member | source | states |
|---|---|---|
| `Tables.InsertAll` | app.py:530-544 | adding the imported records one after another gives them consecutive fresh keys in file order, grows the table by exactly their number and leaves every earlier row unchanged |
| `Accounts.Register` | app.py:214-246 | an open session, an empty field, differing passwords, a password under 6 characters and a taken username are refused in that order, each check consulted only when the earlier ones pass; registration succeeds exactly when all pass, and then exactly one admin with that username and hash is added, nothing else changes and usernames stay unique |
| `Accounts.Login` | app.py:197-212 | an open session is left as it is; otherwise the flag is set exactly when some admin with that username has a stored hash the verifier accepts for the password, so it is never set for an unknown username |
| `Accounts.Logout` | app.py:256-260 | logging out always clears the session flag, whether or not it was set |
| `Accounts.RegisterThenLogin` | app.py:197-246 | an account just registered can log in with the password it was registered with, given a hash verifier that accepts a password against its own hash |
| `Accounts.RegisterTwiceRejected` | app.py:236-239 | registering a username a second time is refused as taken |
| `Accounts.LogoutThenLoginNeedsCredentials` | app.py:205-207 | after a logout the flag comes back only through accepted credentials |
| `Attributes.AddAttribute` | app.py:269-282 | refused exactly when some attribute already has the name; otherwise one attribute with that name is added under a fresh key, values and other attributes are unchanged, and name uniqueness and value references are preserved |
| `Attributes.EditAttribute` | app.py:284-297 | a missing key is not found; otherwise refused exactly when a different attribute holds the new name, else only that attribute is renamed and the uniqueness invariants are preserved |
| `Attributes.DeleteAttribute` | app.py:299-306 | a missing key is not found; otherwise the attribute goes and, through the cascade declared at line 51, exactly the values referring to it go, every other row staying as it was; invariants and value references are preserved |
| `Attributes.AddAttributeValue` | app.py:315-330 | refused exactly when the (attribute, value) pair is already stored; otherwise that one row is added under a fresh key and the pair uniqueness invariant is preserved |
| `Attributes.EditAttributeValue` | app.py:332-348 | a missing key is not found; otherwise refused exactly when a different row holds the new pair, else only that row changes and pair uniqueness is preserved |
| `Attributes.DeleteAttributeValue` | app.py:350-357 | a missing key is not found; otherwise exactly that value row is removed and attributes are unchanged |
| `Attributes.EditKeepingNameSucceeds` | app.py:290-296 | under the uniqueness invariant an attribute can always be saved under its own name |
| `Attributes.EditKeepingValueSucceeds` | app.py:340-347 | under the uniqueness invariant a value row can always be saved with its own pair |
| `Attributes.AddAttributeTwiceRejected` | app.py:274-281 | adding a name that was just added is refused as a duplicate |
| `Attributes.DeleteAttributeLeavesNoValues` | app.py:51 | after deleting an attribute no stored value refers to it |
| `CsvImport.ColumnOf` | app.py:508-523 | the header mapping is defined exactly on the 14 expected headers and is the inverse of the field-to-header table |
| `CsvImport.HeaderMappingRoundTrip` | app.py:498-523 | every record field has an expected header, and the mapping sends that header back to the field |
| `CsvImport.TrimStart` | app.py:495 | the result is a suffix of the cell, everything cut off is whitespace in Python's sense, and the result does not start with whitespace |
| `CsvImport.TrimEnd` | app.py:495 | the result is a prefix of the cell, everything cut off is whitespace, and the result does not end with whitespace |
| `CsvImport.LowerLaws` | app.py:495 | lower-casing keeps the length, is idempotent and never turns whitespace into non-whitespace or back |
| `CsvImport.NormalizeIdempotent` | app.py:495 | normalising an already normalised header cell changes nothing |
| `CsvImport.PaddedHeaderAccepted` | app.py:495-526 | a cell that spells an expected header in any case mix, padded with whitespace on either side, normalises to that header |
| `CsvImport.ByteOrderMarkKeptInHeader` | app.py:493-495 | a first cell starting with a byte-order mark never normalises to `jenis bencana` |
| `CsvImport.HeaderCompleteIffAllFields` | app.py:525-528 | the header check passes exactly when the header of every record field occurs in the normalised header |
| `CsvImport.LastIndex` | app.py:533 | the position of the last occurrence of a header name, or -1 exactly when it does not occur |
| `CsvImport.Zip` | app.py:533 | the row dictionary has exactly the header names as keys, each holding the cell under its last occurrence |
| `CsvImport.MapRow` | app.py:533-535 | a record has a field exactly when its header occurs in the row's header, holding the cell under that header's last column; unmapped columns are dropped |
| `CsvImport.MapRowFields` | app.py:508-535 | under a header that passed the check a row yields all 14 fields, each equal to a cell under a column carrying that field's header |
| `CsvImport.Kept` | app.py:531-532 | the kept rows are exactly the data rows as long as the header, and there are as many as there are such row positions |
| `CsvImport.KeptOccurrences` | app.py:530-532 | every data row as long as the header is kept exactly as often as it occurs in the file, and no other row is kept |
| `CsvImport.KeptAppend` | app.py:530-532 | the rows kept from two consecutive parts of a file are those kept from the first followed by those kept from the second, so kept rows stay in file order |
| `CsvImport.ImportRows` | app.py:530-539 | the reported count equals the number of records produced and the number of kept rows, and the i-th record is built from the i-th kept row |
| `CsvImport.ImportCsv` | app.py:483-549 | no file part, an empty filename, a name not ending in `.csv`, an empty file and a header missing an expected column are each refused, in that order; the import succeeds exactly when none applies |
| `CsvImport.ImportRowsFields` | app.py:530-537 | every produced record carries all 14 fields, each the cell under its column in the kept row it came from |
| `CsvImport.ImportedRecords` | app.py:530-545 | a successful import reports as its count the number of data rows whose length equals the header's, produces that many records, and each has all 14 fields taken from its row |
| `App.Dispatch` | app.py:262-549 | a handler behind the gate never touches admins or the session, leaves the store unchanged when it refuses, and preserves the uniqueness invariants |
| `App.Step` | app.py:142-151 | a protected route without the session flag answers with the login redirect and changes nothing; with it, the reply is exactly the handler's (`Dispatch`); only login sets and only logout clears the flag; every request preserves the uniqueness invariants |
| `App.LogoutLocksProtectedRoutes` | app.py:256-260 | after a logout, as long as the client sends the session it was last given, every protected route is refused with the login redirect and changes nothing |
| `App.ImportGrowsDatasetByCount` | app.py:530-548 | a logged-in import that succeeds grows the dataset by exactly the reported count and keeps the earlier rows; a refused one leaves the store unchanged |
| `App.Run` | app.py:41-57 | any sequence of requests from a store with unique usernames, attribute names and (attribute, value) pairs ends in a store that still has them |

## Left out

- Decision-tree training, prediction and feature importances (`get_c45_model`, `tree`, `calculation`, `predict`): they call a statistics library whose behaviour is not in this repository, and importances are floating point.
- Rendering the tree with Graphviz and base64-encoding the picture: an external tool.
- Password hashing and verification: `Register` takes the hash the hasher produced as a parameter and `Login` takes the verifier as a function parameter.
- Persistence, the ORM, the startup seeding and wiping of tables, templates and flash messages: the store is plain maps, and a reply is one of three statuses.
- The per-row exception and rollback path of the CSV import, and database column constraints (string lengths, NOT NULL) that can fail at commit: only the successful path is modelled.
- The dataset add, edit and delete handlers: add and edit copy form fields into a row with no validation, and delete removes the row with the given key (a missing key is a 404); each is a single table operation with no rule of its own to state.
- Decoding the upload and splitting it into CSV rows (quoting, newlines, invalid UTF-8): an upload is given as its filename and its rows of cells.
- CsvImport.LowerChar: lower-cases only ASCII capitals and KELVIN SIGN and keeps every other character. These are the only characters whose lower case is an ASCII letter, and every expected header is ASCII, so which headers match, and so the outcome of an import, is as in the source.
- Accounts.Login: accepts when SOME admin with the username passes the check, where the source checks the first row the query returns; the two agree whenever usernames are unique, which the schema's unique constraint guarantees and `Register` preserves.
- Attributes.AddAttributeValue: takes the attribute key as a number; the conversion of the form's text by the database is not modelled, and neither is a foreign-key check, which the application does not make (a database that enforces foreign keys, such as PostgreSQL, refuses a dangling key at commit, while the model adds the row).
- Attributes.EditAttributeValue: the same holds for the attribute key of an edit (app.py:338-345): on a database that enforces foreign keys a dangling key makes the commit fail and the row stays as it was, while the model reports success and changes the row.
- Missing form fields (a 400 response), GET requests that only render forms, and the landing-page redirect: they change no state.
- Key allocation: `Tables` hands out keys from a sequence that never goes back, as PostgreSQL's `SERIAL` does. The SQLite fallback (app.py:20-22) gives a new row the largest stored key plus one, so after the row with the largest key is deleted its key is handed out again; a value row left pointing at a deleted attribute key would then belong to the new attribute there (and be removed with it), while in the model it stays dangling.
- The session is one flag held by the server. The application uses Flask's default session, a signed cookie kept by the client, and logout only issues a new cookie; a client that sends back a cookie from before the logout is still logged in. The model, and so `App.LogoutLocksProtectedRoutes`, assumes the client always sends the cookie it was last given.
- Concurrent requests: two requests racing between a uniqueness check and its insert are not modelled; each request is one atomic step.
