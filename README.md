# A verified model of the validation and persistence gateway

The server keeps users, cases and roles in three document collections. This model covers four
layers:

- **Name and password helpers**: `serialize_name`, `serialize_name_entries`, and the guards
  around the password hash and check.
- **`User` and `Case` validation**: the before-validators of each field, the role default, and
  the dump that title-cases `name`.
- **The gateway `MongoDbClient`**: registration, login, role changes, listing and upserting
  cases, and the seeding of the collections.
- **`handle_db_error`**: turns whatever an operation raises into an `{error: message}`
  response with a status.

How the model is built:

- The collections are `seq<Doc>` fields of the class `Db.Gateway`. A document is a
  `map<string, Value>`. Each collection has a unique index on its key field (`username`,
  `name`, `role`) and on `_id`. `Gateway.Valid()` holds those indexes. It also requires every
  stored case name to be a string. Every state-changing method preserves `Valid()`.
- A query sees a missing field as null, and a filter matches field by field. `find_one` is
  `FirstMatch`, the first match in natural order.
- Fresh object ids come from the counter `nextId`.
- The bcrypt hash and check are function parameters (`Hasher`, `Checker`), and so is the salt.
  `MIN_PASSWORD_LENGTH` and `MAX_PASSWORD_LENGTH` are the parameter `PasswordLimits`, because
  `utils/constants.py` is not part of this model.

What is proved:

- **`serialize_name`**:
  - It is exactly "strip, then recase every character": upper case where a space-separated
    token starts, lower case elsewhere. Interior runs of spaces are kept.
  - Its output keeps the stripped input's length and is its own strip.
  - It is idempotent.
  - It ignores letter case and surrounding whitespace.
- **The username and password validators** report exactly the first rule broken, in the
  source's order.
- **A registration dump** succeeds exactly when every field validates. What it stores is
  stated field by field.
- **Seeding** never breaks the unique indexes and is idempotent. A rerun with freshly salted
  password digests changes nothing, because the unique username index refuses every insert.
- **Role changes and upserts** touch only the user or the case concerned. The role update,
  addressed by `_id`, reaches the user who logged in.

Quirks of the code worth knowing:

- The message for a password that is too long reads "at least", as `server/db/models/error.py`
  writes it.
- Both before-validators of `Case` are registered on `name`, so `description` is stored
  untrimmed. Their order does not matter (`CaseModel.ValidatorOrderIrrelevant`).
- `promote_user` sets the role to Senior whatever the role was, so an Admin who is "promoted"
  becomes Senior.
- On a rerun of the users' seeding, the digests are new, so no row's filter ever matches. It is
  the duplicate key error on `username` that leaves the collection unchanged
  (`Seeding.RerunWithChangedRows`, `Db.ReseedUsersNoChange`).
- A role change whose write is not acknowledged raises `WriteError()` without its required
  argument. The TypeError that raises is caught by the catch-all clause, so the reply is a 500
  with the TypeError's text, not "Failed to write to database".

## Model

| member | source | states |
|---|---|---|
| Documents.FirstMatch | server/db/db.py:196 | `find_one`: the index found matches the filter and no earlier document does; none is found exactly when no document matches |
| Documents.UniqueFirstMatch | server/db/db.py:128 | under a unique index, a document is the first match for its own key value |
| StringUtils.Lower | server/db/models/user.py:22 | `lower()` keeps the length and lowers each character |
| StringUtils.Strip | server/utils/string_utils.py:8 | `strip()` leaves no whitespace at either end of a non-empty result |
| StringUtils.StripIsCore | server/utils/string_utils.py:8 | the input is whitespace, then the result of `strip()`, then whitespace, so only whitespace is removed and only at the ends |
| StringUtils.StripOuterSpace | server/utils/string_utils.py:8 | whitespace added at either end does not change what `strip()` returns |
| StringUtils.StripUnchanged | server/utils/string_utils.py:8 | a string with no whitespace at either end is its own `strip()` |
| StringUtils.SerializeName | server/utils/string_utils.py:7-8 | strip, split on single spaces, capitalise each token, join with single spaces; its properties are the contracts of SerializeNameIsRecase, SerializeNameChars, SerializeNameTrimmed, SerializeNameIdempotent, SerializeNameIgnoresOuterSpace and SerializeNameIgnoresCase below |
| StringUtils.Split | server/utils/string_utils.py:8 | `split(" ")` yields at least one token and no token holds a space |
| StringUtils.JoinSplit | server/utils/string_utils.py:8 | joining the tokens of `split(" ")` with single spaces gives back the string |
| StringUtils.SerializeNameIsRecase | server/utils/string_utils.py:7-8 | `serialize_name(s)` is `strip(s)` recased from the start of a token |
| StringUtils.SerializeNameChars | server/utils/string_utils.py:7-8 | the output has the length of `strip(s)`; each character is upper-cased at a token start and lower-cased elsewhere |
| StringUtils.SerializeNameTrimmed | server/utils/string_utils.py:7-8 | the output has no outer whitespace and is empty exactly when `strip(s)` is |
| StringUtils.SerializeNameIdempotent | server/utils/string_utils.py:7-8 | `serialize_name(serialize_name(s)) == serialize_name(s)` |
| StringUtils.SerializeNameIgnoresOuterSpace | server/utils/string_utils.py:7-8 | whitespace added around the input does not change the output |
| StringUtils.SerializeNameIgnoresCase | server/utils/string_utils.py:7-8 | `serialize_name(lower(s)) == serialize_name(s)`, and `serialize_name("") == ""` |
| StringUtils.SerializeNameExample | server/utils/string_utils.py:7-8 | `" aLICE   bOB "` gives `"Alice   Bob"`: interior space runs survive |
| StringUtils.StripIdempotent | server/db/models/case.py:8-16 | `strip(strip(s)) == strip(s)` |
| StringUtils.StripLower | server/db/models/case.py:8-16 | stripping and lower-casing commute |
| StringUtils.SerializeNameEntries | server/utils/string_utils.py:10-11 | it is defined exactly when every row's name is a string or absent; same rows in the same order; only `name` changes, to `serialize_name` of the old name or of `""` |
| StringUtils.HashPassword | server/utils/string_utils.py:19-20 | no digest exactly when the password is empty, the hash of the password otherwise |
| StringUtils.CheckPassword | server/utils/string_utils.py:22-24 | false when either side is missing or empty, the bcrypt check otherwise |
| ErrorModel.Message | server/db/models/error.py:7-14 | the text of each custom error; the length messages quote the configured limits in decimal |
| ErrorModel.TooShortMessage | server/db/models/error.py:13 | with a minimum of 8 the too-short message quotes 8 |
| ErrorModel.TooLongMessage | server/db/models/error.py:14 | with a maximum of 64 the too-long message quotes 64 in decimal and reads "at least" |
| RoleModel.ParseRole | server/db/models/role.py:6-9 | a role is accepted exactly when the string is one member's value |
| RoleModel.RoleNamesDistinct | server/db/models/role.py:6-9 | distinct roles store distinct values; the enum has three members |
| RoleModel.RoleDocument | server/db/models/role.py:11-12 | the dumped `Role` holds only `role`, the member's value |
| UserModel.Search | server/db/models/user.py:28 | `re.search` of a character class is true exactly when some character is in the class |
| UserModel.ValidateUsername | server/db/models/user.py:24-38 | accepted exactly when the stripped, lower-cased name breaks no rule; the value is that normalised name; otherwise the first rule broken, the character class before the digit start |
| UserModel.ValidatePassword | server/db/models/user.py:40-69 | accepted exactly when no rule is broken, and then it is the digest of the untrimmed input; otherwise the first broken rule of uppercase, lowercase, special, too short, too long |
| UserModel.AcceptedUsername | server/db/models/user.py:26-38 | an accepted username is `[a-z0-9_]*`, does not begin with a digit, and validates to itself |
| UserModel.UsernameExampleA | server/db/models/user.py:28-32 | `"9bob!"` reports the invalid character, not the digit start |
| UserModel.UsernameExampleB | server/db/models/user.py:28-32 | `"bob!"` reports the invalid character |
| UserModel.UsernameExampleC | server/db/models/user.py:33-37 | `"9bob"` reports the digit start |
| UserModel.UsernameExampleD | server/db/models/user.py:24-38 | `"bob_9"` is accepted |
| UserModel.PasswordExampleRejected | server/db/models/user.py:43-49 | `"abcdefgh"` is rejected for the missing uppercase letter, the first rule checked |
| UserModel.PasswordExampleAccepted | server/db/models/user.py:43-69 | `"Abcdefg!"`, within the length limits, passes every rule and is replaced by its digest |
| UserModel.RoleField | server/db/models/user.py:17 | an absent role is Junior; a present one is accepted exactly when it names a role |
| UserModel.UserDump | server/db/models/user.py:13-17 | a failed dump reports at least one issue |
| UserModel.ParseName | server/db/models/user.py:19-22 | the before-validator of `name` stores `lower(strip(raw))`; DumpedName states what it dumps to |
| UserModel.DumpedName | server/db/models/user.py:19-22 | `serialize_name` of the parsed name equals `serialize_name` of the raw name |
| UserModel.UserDumpSucceeds | server/db/models/user.py:13-69 | the dump succeeds exactly when all of name, username and password are present, both validators accept, and the role is valid or absent |
| UserModel.UserDumpContents | server/db/models/user.py:17-73 | the dump holds exactly name, username, password and role: `serialize_name` of the raw name, the normalised username, the digest, and the role or Junior |
| UserModel.UserDumpIssues | server/db/models/user.py:13-69 | the issues, in field order: "Field required" for each missing field, the validator's error for a rejected username or password, and the enum error for a role that is not a member's value |
| CaseModel.ParseName | server/db/models/case.py:8-11 | the first before-validator of `name` gives `lower(strip(name))`; ValidatorOrderIrrelevant relates it to the other |
| CaseModel.ParseDescription | server/db/models/case.py:13-16 | the second before-validator, also registered on `name`, gives `strip(name)`; ValidatorOrderIrrelevant relates it to the first |
| CaseModel.ValidatedName | server/db/models/case.py:8-16 | both before-validators of `name`, the last registered running first; ValidatorOrderIrrelevant states the result is `lower(strip(raw))` |
| CaseModel.ValidatorOrderIrrelevant | server/db/models/case.py:8-16 | either order of the two `name` validators gives `lower(strip(raw))` |
| CaseModel.CaseDump | server/db/models/case.py:4-20 | the dump succeeds exactly when name and description are present; otherwise it names the missing fields in order |
| CaseModel.CaseDumpContents | server/db/models/case.py:13-20 | the dump holds only name and description: `serialize_name` of the raw name, and the description untrimmed |
| CaseModel.CaseKeyIsSerializedName | server/db/models/case.py:8-20 | the stored name is `serialize_name` of the raw name |
| CaseModel.CaseKeyNormalises | server/db/models/case.py:8-20 | raw names that differ only in letter case or outer whitespace are stored alike |
| CaseModel.CaseKeyExample | server/db/models/case.py:18-20 | `" acme corp "` is stored as `"Acme Corp"` |
| DbErrors.FirstClause | server/db/db.py:31-63 | the first `except` clause an exception belongs to: a duplicate key stops at the duplicate-key clause before the write-error one, a network timeout at the timeout clause before the connection-failure one, and an exception of no named class falls to the catch-all |
| DbErrors.HandleDbError | server/db/db.py:31-63 | each exception class answers with the status and message of the first clause it belongs to; the response is always an error |
| Seeding.SeedRow | server/db/db.py:168-171 | one `update_one(row, {"$setOnInsert": row}, upsert=True)`: nothing when a document matches the row, otherwise the row inserted under a fresh `_id` unless it carries one, and nothing when the insert would break a unique index (the exception is swallowed); SeedRowIndexed, SeedRowSettles and SettledRowNoChange state its properties |
| Seeding.SeedRows | server/db/db.py:160-171 | the rows upserted one after another in order; SeedRowsSettle, SettledRowsNoChange, SeedRowsIdempotent and RerunWithChangedRows state its properties, and Db.Gateway.LoadInitialRows is proved equal to it |
| Seeding.SeedRowIndexed | server/db/db.py:167-171 | one upsert keeps both unique indexes and fresh ids, and only appends |
| Seeding.SeedRowSettles | server/db/db.py:169-171 | after one upsert a document matches the row or holds its key |
| Seeding.SettledRowNoChange | server/db/db.py:169-171 | a row with a matching document, or whose key is taken, changes nothing |
| Seeding.SettledGrows | server/db/db.py:169-171 | a row stays answered for as the table grows |
| Seeding.SeedRowsSettle | server/db/db.py:167-171 | the loop keeps the indexes, only appends, and afterwards answers for every row, the skipped ones included |
| Seeding.SettledRowsNoChange | server/db/db.py:167-171 | a loop over rows that are all answered for changes nothing |
| Seeding.SeedRowsIdempotent | server/db/db.py:167-171 | loading the same rows twice equals loading them once |
| Seeding.RerunWithChangedRows | server/db/db.py:126-136 | rows that differ only outside the unique key, such as fresh digests, change nothing on a rerun |
| Seeding.SeedRowStrField | server/db/db.py:169 | an upsert of a row with a string field keeps that field a string in every document |
| Db.RoleRows | server/db/db.py:119-123 | `Role(role=r).model_dump()` for every member of the enum in declaration order; InitRolesTable states that every role then has its document |
| Db.IndexField | server/db/db.py:117-140 | no collection's unique field is `_id` |
| Db.SetFieldIndexed | server/db/db.py:230-233 | setting a field that is neither the key nor `_id` keeps the indexes |
| Db.AppendIndexed | server/db/db.py:200 | inserting a new key value under a fresh id keeps the indexes |
| Db.Registration | server/db/db.py:196-202 | a taken username answers 409 and stores nothing; otherwise exactly the dump is appended under a fresh id and sent back |
| Db.RoleChange | server/db/db.py:222-238 | a failed login's response is passed on unchanged; a user who already holds the role gets "User is already a <role>" and nothing changes; otherwise only that user's `role` changes, to the target, and the reply is the promoted or demoted message when the write is acknowledged, else the 500 of the TypeError that `raise WriteError()` raises |
| Db.Upserted | server/db/db.py:249-262 | one case has the dumped name and fields; cases with other names are unchanged; an insert appends under a fresh id; a replace sets the dump's fields on the first case with the name, which keeps its `_id`, and sends back that existing id; the record sent back is the dump with that case's id |
| Db.CaseRows | server/db/db.py:167 | defined exactly when every seed row validates; then the dumps in order |
| Db.SeedUserRows | server/db/db.py:126-136 | the seed rows in order, each hashed as SeedUserRow says with the salt drawn for its position; ReseedUsersNoChange and SeededUserFound state what loading them does |
| Db.SeedUserRow | server/db/db.py:131 | the row with `password` replaced by the digest of `str(row.get("password"))`, or null for an empty one |
| Db.ReseedUsersNoChange | server/db/db.py:126-136 | for seed rows that carry a username, seeding the users again, with any new salts, leaves the users and the counter unchanged |
| Db.SeededCaseFound | server/db/db.py:138-146 | after seeding, a case holds each seed row's serialised name |
| Db.SeededUserFound | server/db/db.py:126-136 | after seeding, a user holds each seeded username that comes without its own `_id` |
| Db.Gateway.constructor | server/db/db.py:73-84 | the collections start empty and valid |
| Db.Gateway.LoadInitialRows | server/db/db.py:160-171 | the loop leaves the collection as the row-by-row seeding says, other collections untouched, indexes kept, every row answered for |
| Db.Gateway.SeedStep | server/db/db.py:168-171 | one upsert of the loop, with a refused insert skipped |
| Db.Gateway.InitRolesTable | server/db/db.py:115-124 | afterwards every role has a document |
| Db.Gateway.InitUsersTable | server/db/db.py:126-136 | the seed rows with hashed passwords are loaded without validation; every seeded username without its own `_id` is present |
| Db.Gateway.InitCasesTable | server/db/db.py:138-146 | one invalid seed row leaves the cases untouched; otherwise every seeded case is found under its serialised name |
| Db.Gateway.Initialise | server/db/db.py:85-88 | roles, then users, then cases are seeded: the roles, users, cases and counter are exactly the three seedings run in that order, each starting from the counter the previous one left; every role, every seeded username without its own `_id` and, when every case row validates, every seeded case is then present, and an invalid case row leaves the cases untouched |
| Db.Gateway.RegisterUser | server/db/db.py:193-202 | a failed dump answers 422 with the messages joined by `"; "` and stores nothing; otherwise it stores as Registration says |
| Db.Gateway.InsertUser | server/db/db.py:196-202 | the lookup and insert match Registration and keep the indexes |
| Db.Gateway.LoginUser | server/db/db.py:204-212 | missing or empty parameters raise an invalid operation; an unknown username gives an authentication error; success names a user under the normalised username whose digest passes the check |
| Db.Gateway.Login | server/db/db.py:204-212 | success exactly when the lookup succeeds, and then the stored record with status 200; otherwise an error response with 400, 401 or 500 |
| Db.Gateway.LoginOutcome | server/db/db.py:206-212 | for a stored user under that username: a missing password field answers 500 "password", an object id 500, null 401; a digest gives 200 exactly when the check passes, else 401 |
| Db.Gateway.ChangeUserRole | server/db/db.py:222-238 | the users and the response are the RoleChange of the login's outcome; the other collections and the counter are unchanged |
| Db.Gateway.PromoteUser | server/db/db.py:214-216 | a role change to Senior |
| Db.Gateway.DemoteUser | server/db/db.py:218-220 | a role change to Junior |
| Db.Gateway.GetCases | server/db/db.py:240-245 | on a valid store: status 200, one entry per case in order, each with only its name serialised |
| Db.Gateway.UpsertCase | server/db/db.py:247-262 | a failed dump answers 422 and changes nothing; otherwise the cases, the counter and the record sent back are those of Upserted |
| Db.Gateway.UpdateOne | server/db/db.py:250-254 | the upserting `update_one` leaves the cases and the counter of Upserted, keeps the indexes, and reports an `upserted_id` exactly when no case had the name |
| Db.Gateway.StoreCase | server/db/db.py:250-262 | the update-or-insert and the id lookup match Upserted and keep the indexes |

## Left out

- Connecting to MongoDB, reading the environment, timeouts and the destructor
  (`server/db/db.py:73-113`). These are network I/O; the collections are in-memory fields.
- Apart from a case seed row that fails validation, an exception that `__init__` swallows
  halfway through seeding is not modelled.
- `read_init_json` is file I/O. The seed rows are parameters of the `Init…` methods.
- `get_user_by_id` is not called by any modelled operation.
- bcrypt hashing and checking, salting and base64 encoding. The hash and the check are
  parameters; only their empty-input guards are modelled.
- A malformed digest that makes `bcrypt.checkpw` raise is not modelled. The check is a total
  function.
- Object ids are opaque. The `str()` conversions, `ObjectId(...)` parsing and JSON
  (de)serialisation of responses are not modelled.
- Db.Gateway.ChangeUserRole: the id read back from the login response is taken to be the
  stored `_id`. This ignores a seed row that brings its own string `_id`, which `ObjectId(...)`
  would parse or reject.
- Unicode case mapping. `lower`, `upper` and `capitalize` change ASCII letters only; `strip`
  uses Python's full whitespace set.
- JSON values other than strings in request bodies and seed rows. Request and seed fields are
  strings.
- Pydantic's type coercion and its errors for non-string fields are not modelled.
- Pydantic's own errors ("Field required", the enum error) are opaque issues with fixed texts.
- Db.Gateway.GetCases: a stored case name that is not a string answers 500 with one fixed
  message. The type-specific text of Python's error is not modelled. On a valid store this
  cannot happen.
- Db.Gateway.LoginUser: the text of the decoding error for an object-id password is one fixed
  string.
- Db.RoleChange: an unacknowledged write is taken to have been applied. The driver gives no
  such guarantee. The reply is then the 500 of the TypeError that `raise WriteError()` raises,
  because the driver's `OperationFailure.__init__` requires an `error` argument; the message
  is the wording of CPython 3.10 and later for that TypeError, as one fixed string.
- Db.Gateway.UpsertCase: on the insert path the reply is modelled as 200 with the record. The
  source puts the raw ObjectId `upserted_id` into the record (server/db/db.py:256, 260), which
  Flask's default JSON encoding cannot serialise, so as written it answers 500 ("Object of type
  ObjectId is not JSON serializable") with the case already stored. JSON encoding of responses
  is not part of this model.
- Mongo's filter semantics are reduced to field-by-field equality. There are no operators and
  no dotted paths.
- The operations require the `Valid()` invariant. An operation called before the collections
  are initialised, when the attribute does not exist, is not modelled.
- `server/app.py`, `server/utils/logger.py` and `server/utils/response.py` are not modelled;
  `response.py` is represented by the `Response` datatype. Logging is left out.
