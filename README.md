# Client query management: the data store, in Dafny

This project models the data-access layer of a small support-ticket tool.
Clients submit queries (tickets); support staff list them, filter them by status
and close them. The store keeps two tables:

- `queries` is keyed by a generated id `Q0001`, `Q0002`, … and holds mail, mobile number,
  heading, description, status (`Opened`/`Closed`), created time, closed time and an
  optional image.
- `users` is keyed by username and holds a password hash and a role.

Login itself uses a fixed two-account allowlist.

## Layout

- `wrappers.dfy`: `Option`, `Result` and `Outcome`, the error paths of the operations.
- `strings.dfy`: the string facts the store depends on.
  - Code point order on text, which is how both SQLite and Python compare strings.
  - Decimal digit strings and zero padding as in `{n:04d}`.
  - ASCII lower-casing.
  - The key fact: for equal-length digit strings, string order equals numeric order.
- `query_ids.dfy`: `get_next_query_id` as functions.
  - `GreatestId` is `ORDER BY query_id DESC LIMIT 1` over the key set.
  - `NextNumber` is the parse-and-increment step.
  - `FormatQueryId` is `f"Q{n:04d}"`.
- `queries.dfy`: the `queries` table as a map from id to `Query`.
  - Each write (`insert_query`, `close_query`, the insert-or-ignore loop of `import_csv`)
    is a method of the class `QueryTable`, which holds that map.
  - Each method is proved equal to a pure function of the old table (`InsertRow`,
    `CloseRow`, `ImportAll`), and the properties are lemmas about those functions.
  - The reads (`fetch_queries`, `get_query_image`) are the functions `Fetch` and `ImageOf`
    of the table value.
- `users.dfy`: the allowlist check, and the `users` table as the class `UserTable`.
  - The hash function is a constructor argument and stays uninterpreted.
- `client_form.dfy`: the client form's guard. It inserts only when all four text fields
  are non-empty and otherwise reports a validation failure without writing.

Timestamps are the `'%Y-%m-%d %H:%M:%S'` strings the source stores, passed in as `now`.
Such strings sort chronologically under string order, which is the order `ORDER BY
query_created_time` uses.

The model follows the code on three points where another reading is easy.

- The id is one past the greatest id *in string order*, not one past the greatest numeric
  suffix. While every id is `Q` plus four digits the two agree, and the generated id is
  fresh (`NextIdFresh`). Past `Q9999` they diverge: `"Q9999"` sorts after `"Q10000"`, so
  the generator hands out `Q10000` again, and every later insert fails on the primary key
  (`NextIdRepeatsPastQ9999`, `InsertFailsPastQ9999`).
- Re-closing a closed query overwrites its closed time rather than keeping the first one
  (`CloseRowTwice`).
- Imported rows are stored as given. The invariant "closed time set exactly when status is
  Closed" is kept by inserts and closes (`NewQueryConsistent`, `CloseRowConsistent`) but
  not enforced on imports.

## Model

| member | source | states |
|---|---|---|
| `Strings.LexLe` | database.py:148 | the string order of ids and of created times: a prefix comes first, otherwise the first differing character decides |
| `Strings.ParseNat` | database.py:154 | the suffix parses exactly when it is a non-empty run of decimal digits |
| `QueryIds.Suffix` | database.py:154 | `last_id[1:]`: empty for an empty id, otherwise the id with its first character removed |
| `QueryIds.GreatestId` | database.py:148-152 | none exactly for an empty table; otherwise a key that every other key precedes or equals in string order |
| `QueryIds.GreatestIdUnique` | database.py:148 | the greatest id in string order is unique, so "the last id" is well defined |
| `QueryIds.FormatQueryId` | database.py:160 | `Q` and at least four digits, length at least 5; the digits parse back to n; length is exactly 5 iff n < 10000; from 10000 on the digits are exactly n's decimal digits, with no padding zero |
| `QueryIds.NextNumber` | database.py:151-159 | the new number is at least 1, and exactly 1 for an empty table |
| `QueryIds.NextQueryId` | database.py:145-160 | every generated id starts with `Q`, has length at least 5, and is digits after the `Q` |
| `QueryIds.FormatThenNextNumber` | database.py:152-160 | an id this generator wrote, read back as the last id, gives n + 1 |
| `QueryIds.NextIdOfEmpty` | database.py:151-160 | an empty table gives `Q0001` |
| `QueryIds.NextIdUnparseable` | database.py:153-157 | a greatest id whose suffix after the first character is not a non-empty digit run gives `Q0001` |
| `QueryIds.NextIdUnparseableExamples` | database.py:153-157 | a table holding only `Q`, or only `Qabc`, gives `Q0001` |
| `QueryIds.NextIdNumeric` | database.py:152-155 | a greatest id of one character and the digits of n gives `Q` and n + 1, zero-padded to four digits |
| `QueryIds.FourDigitOrder` | database.py:148 | on ids of `Q` and four digits, string order agrees with numeric order in both directions |
| `QueryIds.NextIdFresh` | database.py:148-160 | if every id is `Q` and four digits, the generated id is not already a key |
| `QueryIds.NextIdAdvances` | database.py:148-160 | below `Q9999` the generated id is four-digit and one past the greatest; it comes after every key in string and in numeric order; it becomes the new greatest id |
| `QueryIds.NextIdRepeatsPastQ9999` | database.py:148-160 | with `Q9999` and `Q10000` present, the generated id is `Q10000`, which is taken |
| `Queries.NewQuery` | database.py:182-192 | a submitted row has the given fields, status Opened, the given created time, no closed time and the given image, so it meets the lifecycle invariant |
| `Queries.InsertRow` | database.py:174-193 | a plain INSERT fails with an integrity error exactly when the key exists, changing nothing; otherwise it adds exactly that row and keeps every other row |
| `Queries.NewQueryConsistent` | database.py:183-192 | a successful submission keeps "closed time present iff status Closed" for every row |
| `Queries.InsertNextIdSucceeds` | database.py:170-193 | on a table of four-digit ids, inserting under the generated id cannot fail |
| `Queries.InsertFailsPastQ9999` | database.py:170-193 | on the table {`Q9999`, `Q10000`}, inserting under the generated id fails with an integrity error |
| `Queries.QueryTable.InsertQuery` | database.py:163-196 | the new state and result are those of `InsertRow` with the generated id: the returned id, status Opened, no closed time, the given created time, fields and image; on a taken id, failure and no change |
| `Queries.CloseRow` | database.py:208-211 | same keys; the matching row gets status Closed and the given closed time and keeps all other columns; other rows unchanged; an unknown id changes nothing |
| `Queries.CloseRowConsistent` | database.py:208-211 | closing keeps "closed time present iff status Closed" for every row |
| `Queries.CloseRowTwice` | database.py:205-211 | closing again overwrites the closed time: two closes equal one close at the later time |
| `Queries.QueryTable.CloseQuery` | database.py:199-213 | the new state is `CloseRow` of the old state |
| `Queries.FromImport` | database.py:120-130 | an imported row keeps the file's mail, mobile, heading, description, status, created and closed time, and has no image |
| `Queries.InsertOrIgnore` | database.py:131-140 | an existing key keeps its row; a new key gets the imported row |
| `Queries.ImportAll` | database.py:118-140 | the keys afterwards are the old keys plus every id in the file |
| `Queries.ImportAllKeepsExisting` | database.py:118-140 | an import never changes an existing row, and every added row has no image |
| `Queries.ImportAllFirstWins` | database.py:118-140 | each id new to the table gets the first file row that carries it, because rows added earlier in the same import count as present |
| `Queries.QueryTable.ImportCsv` | database.py:103-142 | a missing file fails and changes nothing; otherwise the new state is `ImportAll` of the old state over the file's rows |
| `Queries.IsAllKeywordCases` | database.py:219 | the filter means "all" exactly for the eight case variants of `all` |
| `Queries.Selected` | database.py:219-227 | no filter or any case variant of `all` selects every row; any other filter selects exactly the rows whose status equals it |
| `Queries.SelectRecords` | database.py:219-227 | exactly the selected rows of the given ids, each once, as records without the image |
| `Queries.SortByCreatedDescCorrect` | database.py:221-225 | the sort returns a permutation of its input with created times non-increasing, and adds no duplicates |
| `Queries.Fetch` | database.py:216-240 | every listed record is a selected row, with all columns but the image; every selected row is listed; no id twice; created times non-increasing |
| `Queries.FetchAllIsUnfiltered` | database.py:219-222 | any case variant of `all` lists exactly what no filter lists |
| `Queries.FetchByStatus` | database.py:223-227 | any other filter lists exactly the rows whose status equals it, case-sensitively |
| `Queries.ImageOf` | database.py:243-257 | an image exactly when the row exists and has one, and then the stored image |
| `Queries.ImagesAreImmutable` | database.py:129 | closing never changes any image; an import keeps existing images and adds rows without one |
| `Queries.SubmitThenCloseExample` | database.py:163-213 | the first submission into an empty table becomes `Q0001`, Opened, not closed; closing it sets Closed and the closed time |
| `Users.AuthenticateByRole` | database.py:88-100 | true exactly for (`Support`, `support`, `support123`) and (`Client`, `client`, `client123`); an unknown role gives false |
| `Users.AuthenticateByRoleExamples` | database.py:88-100 | both accounts log in under their own role, not under the other role or an unknown role |
| `Users.AddUserTo` | database.py:55-64 | an existing username keeps its row; a new one gets the password's hash and the role |
| `Users.WithDefaultUsers` | database.py:67-72 | seeding adds `support` and `client` and keeps every existing row; a newly seeded `support` row holds `hash("support123")` and role `Support`, a new `client` row `hash("client123")` and role `Client` |
| `Users.DefaultUsersIdempotent` | database.py:67-72 | seeding twice equals seeding once |
| `Users.Authenticate` | database.py:75-85 | a role exactly when the username exists with this password's hash, and then that user's role |
| `Users.AuthenticateAfterAdd` | database.py:55-85 | a new user logs in with the password given; with an injective hash, no other password works |
| `Users.SeededLookupMatchesAllowlist` | database.py:67-100 | on a freshly seeded table with an injective hash, the table lookup grants a role exactly when the allowlist accepts that role |
| `Users.UserTable.AddUser` | database.py:55-64 | the new state is `AddUserTo` of the old state with the table's hash |
| `Users.UserTable.CreateDefaultUsers` | database.py:67-72 | the new state is `WithDefaultUsers` of the old state |
| `ClientForm.FieldsFilled` | app.py:79 | the form proceeds exactly when all four text fields are non-empty |
| `ClientForm.Submit` | app.py:78-90 | an empty required field is a validation failure with no write; otherwise it behaves like `InsertQuery` |

## Left out

- Connection handling and DDL (database.py:13-14, 17-49) are not modelled. Each table is a
  value held by an object and starts empty. `CREATE TABLE IF NOT EXISTS` has no
  counterpart.
- `hash_password` (database.py:52-53) is SHA-256 in the source. Here it is an
  uninterpreted `string -> string` function. Injectivity is assumed only by the lemmas
  that state it as a precondition.
- `datetime.now()` (database.py:171, 205) is not called. The timestamp is the `now`
  parameter.
- CSV reading and column renaming by pandas (database.py:106-115) are not modelled. The
  import takes already-renamed rows. `None` stands for a missing file.
- NaN cells and pandas' type inference are not modelled. Every text column is a string, and
  only the closed time can be absent. What the model does not capture is that a column
  pandas reads as numbers loses its spelling: a mobile number `0555` is read as 555 and
  stored, by the TEXT column's affinity, as `"555"`. An absent `query_id` is not modelled, though SQLite would
  accept a NULL key in a TEXT primary key.
- Building the DataFrame in `fetch_queries` (database.py:230-240) is not modelled. The
  result is a sequence of records with the same eight columns.
- Fetch: the order among rows with equal created time is left unspecified by SQL. The
  contract states only that created times are non-increasing. The body breaks ties in
  one fixed way of its own.
- NextNumber: the suffix parses only as a non-empty run of ASCII digits. Python's
  `int()` also accepts surrounding whitespace, a sign, underscores and non-ASCII digits.
  For example, `Q-5` would give `Q-004` in the source but `Q0001` here. The reverse also
  holds: on Python 3.11 and later `int()` rejects a digit string longer than 4300 digits
  with `ValueError`, so the source restarts at `Q0001` where the model gives n + 1.
- IsAllKeywordCases: `str.lower()` is modelled as ASCII lower-casing. The comparison
  with `all` is unaffected, because no non-ASCII character lower-cases to `a` or `l`.
- Concurrency is not modelled. The read-then-write race between id generation and
  insert is outside a single-writer model.
- The rest of app.py is not modelled: the Streamlit pages, the session flags for
  login and logout, and the startup bootstrap that imports the CSV when the table is
  empty. Only the form's non-empty-fields guard (app.py:78-90) is modelled, as
  `ClientForm.Submit`.
