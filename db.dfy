/**
 * The database gateway `MongoDbClient`: the users, cases and roles collections, each with a
 * unique index, and the operations the routes call. Every operation runs inside
 * `handle_db_error`, so it answers with a response instead of raising. Object ids come
 * from a counter.
 */
module Db {
  import opened Wrappers
  import opened Documents
  import opened StringUtils
  import opened RoleModel
  import opened ErrorModel
  import opened DbErrors
  import opened Seeding
  import UserModel
  import CaseModel

  datatype Table = Users | Cases | Roles

  /** The field each collection's unique index is created on. */
  function IndexField(t: Table): (f: string)
    ensures f != ID
  {
    match t
    case Users => "username"
    case Cases => "name"
    case Roles => "role"
  }

  /** `data.get(f)` on a request body. */
  function Get(req: Json, f: string): Option<string>
  {
    if f in req then Some(req[f]) else None
  }

  /** The messages a validation failure lists, one per issue, in order. */
  function IssueMessages(issues: seq<Issue>, limits: PasswordLimits): seq<string>
  {
    seq(|issues|, k requires 0 <= k < |issues| => IssueMessage(issues[k], limits))
  }

  /** What `base64.b64decode` raises on a stored password that is an object id. */
  const DECODE_ERROR: string := "argument should be a bytes-like object or ASCII string, not 'ObjectId'"

  /** What `serialize_name` raises on a stored case name that is not a string. */
  const STRIP_ERROR: string := "'NoneType' object has no attribute 'strip'"

  /** Keeping a table's indexes while changing a field that is neither the key nor `_id`. */
  lemma SetFieldIndexed(table: seq<Doc>, next: nat, key: string, k: nat, f: string, v: Value)
    requires Indexed(table, next, key) && k < |table| && f != key && f != ID
    ensures Indexed(table[k := table[k][f := v]], next, key)
  {
    var t := table[k := table[k][f := v]];
    assert forall i :: 0 <= i < |t| ==> KeyOf(t[i], key) == KeyOf(table[i], key) && KeyOf(t[i], ID) == KeyOf(table[i], ID);
  }

  /** Appending a document under a key value no document holds and a fresh id keeps the indexes. */
  lemma AppendIndexed(table: seq<Doc>, next: nat, key: string, doc: Doc)
    requires Indexed(table, next, key) && key != ID
    requires forall i :: 0 <= i < |table| ==> KeyOf(table[i], key) != KeyOf(doc, key)
    requires ID in doc && doc[ID] == Oid(next)
    ensures Indexed(table + [doc], next + 1, key)
  {
    var t := table + [doc];
    forall i, j | 0 <= i < j < |t| ensures KeyOf(t[i], key) != KeyOf(t[j], key) && KeyOf(t[i], ID) != KeyOf(t[j], ID) {
      if j == |table| {
        assert t[j] == doc && t[i] == table[i];
      } else {
        assert t[i] == table[i] && t[j] == table[j];
      }
    }
  }

  /**
   * A registration's store and response: a username some user holds already is refused with
   * 409 and nothing stored; otherwise the dump is appended under a fresh id and sent back.
   */
  function Registration(users: seq<Doc>, next: nat, data: Doc): (out: (seq<Doc>, nat, Response))
    requires "username" in data
    ensures (exists i :: 0 <= i < |users| && KeyOf(users[i], "username") == data["username"]) ==>
      out == (users, next, ErrorResponse("Value already exists", 409))
    ensures (forall i :: 0 <= i < |users| ==> KeyOf(users[i], "username") != data["username"]) ==>
      out == (users + [data[ID := Oid(next)]], next + 1, Response(200, RecordBody(data[ID := Oid(next)])))
  {
    match FirstMatch(users, map["username" := data["username"]])
    case Some(i) =>
      assert KeyOf(users[i], "username") == data["username"];
      (users, next, HandleDbError(DuplicateKeyError("User already exists")))
    case None =>
      assert forall i :: 0 <= i < |users| ==> !Matches(map["username" := data["username"]], users[i]);
      (users + [data[ID := Oid(next)]], next + 1, Response(200, RecordBody(data[ID := Oid(next)])))
  }

  // ---------------------------------------------------------------- role changes

  /**
   * The text of the TypeError that `raise WriteError()` raises: the driver's `WriteError`
   * takes its `error` argument from `OperationFailure.__init__`, which requires it.
   */
  const WRITE_ERROR_ARGS_ERROR: string := "OperationFailure.__init__() missing 1 required positional argument: 'error'"

  /** The text of a successful role change. */
  function RoleChangedMessage(to: RoleEnum): string
  {
    if to == Senior then "User promoted successfully" else "User demoted successfully"
  }

  /**
   * The users and the response after a role change, given the outcome of its login: a
   * failed login answers as the login did; a user who already holds the role is told so;
   * otherwise the user's role is set, and an unacknowledged write answers as the TypeError
   * that constructing the write error raises.
   */
  function RoleChange(users: seq<Doc>, login: Result<nat, Raised>, to: RoleEnum, acknowledged: bool): (out: (seq<Doc>, Response))
    requires login.Success? ==> login.value < |users|
    ensures |out.0| == |users|
    ensures forall j :: 0 <= j < |users| && !(login.Success? && j == login.value) ==> out.0[j] == users[j]
    ensures login.Success? ==> var k := login.value;
      && out.0[k].Keys == users[k].Keys + {"role"}
      && out.0[k]["role"] == Str(RoleName(to))
      && forall f :: f in users[k] && f != "role" ==> out.0[k][f] == users[k][f]
    ensures login.Failure? ==> out.1 == HandleDbError(login.error)
    ensures login.Success? && KeyOf(users[login.value], "role") == Str(RoleName(to)) ==>
      out == (users, SuccessResponse("User is already a " + RoleName(to)))
    ensures login.Success? && KeyOf(users[login.value], "role") != Str(RoleName(to)) ==>
      out.1 == if acknowledged then SuccessResponse(RoleChangedMessage(to))
               else ErrorResponse(WRITE_ERROR_ARGS_ERROR, 500)
    ensures IsSuccess(out.1) <==>
      login.Success? && (acknowledged || KeyOf(users[login.value], "role") == Str(RoleName(to)))
  {
    match login
    case Failure(e) => (users, HandleDbError(e))
    case Success(k) =>
      if KeyOf(users[k], "role") == Str(RoleName(to)) then
        (users, SuccessResponse("User is already a " + RoleName(to)))
      else
        (users[k := users[k]["role" := Str(RoleName(to))]],
         if acknowledged then SuccessResponse(RoleChangedMessage(to))
         else HandleDbError(OtherError(WRITE_ERROR_ARGS_ERROR)))
  }

  // ---------------------------------------------------------------- cases

  /**
   * `update_one({"name": n}, {"$set": d}, upsert=True)` followed by the id lookup: the first
   * case with the dumped name has the dump's fields set, or a new case is inserted; the
   * result also holds the record sent back.
   */
  function Upserted(cases: seq<Doc>, next: nat, d: Doc): (out: (seq<Doc>, nat, Doc))
    requires "name" in d && ID !in d
    ensures ID in out.2 && out.2 == d[ID := out.2[ID]]
    ensures |out.0| >= |cases|
    ensures forall j :: 0 <= j < |cases| && KeyOf(cases[j], "name") != d["name"] ==> out.0[j] == cases[j]
    ensures exists i :: (0 <= i < |out.0| && KeyOf(out.0[i], "name") == d["name"]
      && (forall f :: f in d ==> KeyOf(out.0[i], f) == d[f]) && KeyOf(out.0[i], ID) == out.2[ID])
    ensures FirstMatch(cases, map["name" := d["name"]]).None? ==>
      out.0 == cases + [out.2] && out.2[ID] == Oid(next) && out.1 == next + 1
    ensures var m := FirstMatch(cases, map["name" := d["name"]]);
      m.Some? ==> && out.0 == cases[m.value := cases[m.value] + d] && out.1 == next
                  && KeyOf(out.0[m.value], ID) == KeyOf(cases[m.value], ID)
                  && out.2[ID] == KeyOf(cases[m.value], ID)
  {
    match FirstMatch(cases, map["name" := d["name"]])
    case Some(i) =>
      var t := cases[i := cases[i] + d];
      assert KeyOf(t[i], "name") == d["name"] && KeyOf(t[i], ID) == KeyOf(cases[i], ID);
      (t, next, d[ID := KeyOf(cases[i], ID)])
    case None =>
      var doc := d[ID := Oid(next)];
      var t := cases + [doc];
      assert KeyOf(t[|cases|], "name") == d["name"];
      (t, next + 1, doc)
  }

  /** The validated seed cases; None when any row fails to validate (the comprehension raises). */
  function CaseRows(seed: seq<Json>): (r: Option<seq<Doc>>)
    ensures r.Some? <==> forall k :: 0 <= k < |seed| ==> CaseModel.CaseDump(seed[k]).Success?
    ensures r.Some? ==> |r.value| == |seed|
    ensures r.Some? ==> forall k :: 0 <= k < |seed| ==> r.value[k] == CaseModel.CaseDump(seed[k]).value
  {
    if forall k :: 0 <= k < |seed| ==> CaseModel.CaseDump(seed[k]).Success? then
      Some(seq(|seed|, k requires 0 <= k < |seed| => CaseModel.CaseDump(seed[k]).value))
    else None
  }

  // ---------------------------------------------------------------- seed rows

  /** The dumped `Role` of every member of the enum, in declaration order. */
  function RoleRows(): seq<Doc>
  {
    seq(|ALL_ROLES|, k requires 0 <= k < |ALL_ROLES| => RoleDocument(ALL_ROLES[k]))
  }

  /** The text a seeded user's password is hashed from: `str(row.get("password"))`. */
  function SeedPasswordText(row: Json): string
  {
    if "password" in row then row["password"] else "None"
  }

  /**
   * `{**row, "password": hash_password(...)}`: the row as given with its password replaced by
   * the digest, or by null for an empty password.
   */
  function SeedUserRow(row: Json, hashpw: Hasher, salt: Salt): (d: Doc)
    ensures d.Keys == row.Keys + {"password"}
    ensures forall f :: f in row && f != "password" ==> d[f] == Str(row[f])
    ensures d["password"] == (if SeedPasswordText(row) == "" then Null else Str(hashpw(SeedPasswordText(row), salt)))
    ensures JsonRow(d)
  {
    FromJson(row)["password" := match HashPassword(hashpw, SeedPasswordText(row), salt)
                                case Some(h) => Str(h)
                                case None => Null]
  }

  /** The seeded users, each hashed with the salt drawn for its position. */
  function SeedUserRows(seed: seq<Json>, hashpw: Hasher, salts: nat -> Salt): seq<Doc>
  {
    seq(|seed|, k requires 0 <= k < |seed| => SeedUserRow(seed[k], hashpw, salts(k)))
  }

  /**
   * Running the users' seeding again, whatever salts it draws, changes nothing once it has run:
   * the new digests make every filter miss, and the unique username refuses every insert.
   */
  lemma ReseedUsersNoChange(table: seq<Doc>, next: nat, seed: seq<Json>, hashpw: Hasher, first: nat -> Salt, again: nat -> Salt)
    requires Indexed(table, next, "username")
    requires forall k :: 0 <= k < |seed| ==> "username" in seed[k]
    ensures var once := SeedRows(table, next, SeedUserRows(seed, hashpw, first), "username");
      SeedRows(once.0, once.1, SeedUserRows(seed, hashpw, again), "username") == once
  {
    var rows := SeedUserRows(seed, hashpw, first);
    var rerun := SeedUserRows(seed, hashpw, again);
    forall k | 0 <= k < |rows| ensures JsonRow(rows[k]) && rows[k] == SeedUserRow(seed[k], hashpw, first(k)) {
      assert rows[k] == SeedUserRow(seed[k], hashpw, first(k));
    }
    forall k | 0 <= k < |rows|
      ensures "username" in rows[k] && "username" in rerun[k] && rows[k]["username"] == rerun[k]["username"]
      ensures (ID in rows[k] <==> ID in rerun[k]) && (ID in rows[k] ==> rows[k][ID] == rerun[k][ID])
    {
      assert rerun[k] == SeedUserRow(seed[k], hashpw, again(k));
    }
    RerunWithChangedRows(table, next, rows, rerun, "username");
  }

  /** Every validated case row is JSON with a string name. */
  lemma CaseRowsShape(seed: seq<Json>, rows: seq<Doc>)
    requires CaseRows(seed) == Some(rows)
    ensures forall k :: 0 <= k < |rows| ==> JsonRow(rows[k]) && "name" in rows[k] && rows[k]["name"].Str?
  {
    forall k | 0 <= k < |rows| ensures JsonRow(rows[k]) && "name" in rows[k] && rows[k]["name"].Str? {
      CaseModel.CaseDumpContents(seed[k]);
    }
  }

  /** A case table that answers for a validated seed row holds that seed's serialised name. */
  lemma SeededCaseFound(cases: seq<Doc>, seed: seq<Json>, rows: seq<Doc>, k: nat)
    requires CaseRows(seed) == Some(rows) && k < |seed|
    requires Settled(cases, rows[k], "name")
    ensures "name" in seed[k]
    ensures exists i :: 0 <= i < |cases| && KeyOf(cases[i], "name") == Str(SerializeName(seed[k]["name"]))
  {
    CaseRowKey(seed, rows, k);
    SettledHolds(cases, rows[k], "name");
  }

  /** A validated seed case row has no `_id` and holds the seed's serialised name. */
  lemma CaseRowKey(seed: seq<Json>, rows: seq<Doc>, k: nat)
    requires CaseRows(seed) == Some(rows) && k < |seed|
    ensures "name" in seed[k] && ID !in rows[k] && "name" in rows[k]
    ensures rows[k]["name"] == Str(SerializeName(seed[k]["name"]))
  {
    CaseModel.CaseDumpContents(seed[k]);
  }

  /** A user table that answers for a seeded row without its own `_id` holds that row's username. */
  lemma SeededUserFound(users: seq<Doc>, seed: seq<Json>, hashpw: Hasher, salts: nat -> Salt, k: nat)
    requires k < |seed| && "username" in seed[k] && ID !in seed[k]
    requires Settled(users, SeedUserRows(seed, hashpw, salts)[k], "username")
    ensures exists i :: 0 <= i < |users| && KeyOf(users[i], "username") == Str(seed[k]["username"])
  {
    var row := SeedUserRows(seed, hashpw, salts)[k];
    assert row == SeedUserRow(seed[k], hashpw, salts(k));
    assert ID !in row && "username" in row && row["username"] == Str(seed[k]["username"]);
    SettledHolds(users, row, "username");
  }

  /** The gateway and its three collections. */
  class Gateway {
    var users: seq<Doc>
    var cases: seq<Doc>
    var roles: seq<Doc>
    var nextId: nat
    /** `MIN_PASSWORD_LENGTH` and `MAX_PASSWORD_LENGTH`. */
    const limits: PasswordLimits

    function TableOf(t: Table): seq<Doc>
      reads this
    {
      match t
      case Users => users
      case Cases => cases
      case Roles => roles
    }

    /** Each collection keeps its unique indexes, and every case name is a string. */
    ghost predicate Valid()
      reads this
    {
      && Indexed(users, nextId, "username")
      && Indexed(cases, nextId, "name")
      && Indexed(roles, nextId, "role")
      && StrField(cases, "name")
    }

    constructor(limits: PasswordLimits)
      ensures this.limits == limits && users == [] && cases == [] && roles == [] && nextId == 0
      ensures Valid()
    {
      this.limits := limits;
      users := [];
      cases := [];
      roles := [];
      nextId := 0;
    }

    // -------------------------------------------------------------- seeding

    /**
     * `load_initial_rows`: every row in turn is upserted with itself as filter, and a row the
     * unique index refuses is skipped. Afterwards the collection answers for every row.
     */
    method LoadInitialRows(rows: seq<Doc>, t: Table)
      requires Valid()
      requires forall k :: 0 <= k < |rows| ==> JsonRow(rows[k])
      requires t == Cases ==> StrField(rows, "name")
      modifies this
      ensures Valid()
      ensures (TableOf(t), nextId) == SeedRows(old(TableOf(t)), old(nextId), rows, IndexField(t))
      ensures t != Users ==> users == old(users)
      ensures t != Cases ==> cases == old(cases)
      ensures t != Roles ==> roles == old(roles)
      ensures forall k :: 0 <= k < |rows| ==> Settled(TableOf(t), rows[k], IndexField(t))
    {
      var i := 0;
      while i < |rows|
        invariant i <= |rows|
        invariant (TableOf(t), nextId) == SeedRows(old(TableOf(t)), old(nextId), rows[..i], IndexField(t))
        invariant t != Users ==> users == old(users)
        invariant t != Cases ==> cases == old(cases)
        invariant t != Roles ==> roles == old(roles)
        invariant Valid()
      {
        SeedStep(rows[i], t);
        assert rows[..i + 1][..i] == rows[..i];
        i := i + 1;
      }
      assert rows[..|rows|] == rows;
      SeedRowsSettle(old(TableOf(t)), old(nextId), rows, IndexField(t));
    }

    /** One `update_one` of the loop, the upsert of one row, with its duplicate key error swallowed. */
    method SeedStep(row: Doc, t: Table)
      requires Valid() && JsonRow(row)
      requires t == Cases ==> "name" in row && row["name"].Str?
      modifies this
      ensures Valid()
      ensures (TableOf(t), nextId) == SeedRow(old(TableOf(t)), old(nextId), row, IndexField(t))
      ensures t != Users ==> users == old(users)
      ensures t != Cases ==> cases == old(cases)
      ensures t != Roles ==> roles == old(roles)
    {
      var step := SeedRow(TableOf(t), nextId, row, IndexField(t));
      SeedRowIndexed(TableOf(t), nextId, row, IndexField(t));
      if t == Cases {
        SeedRowStrField(cases, nextId, row, "name", "name");
      }
      assert IdsBelow(users, step.1) && IdsBelow(cases, step.1) && IdsBelow(roles, step.1);
      if t == Users {
        users := step.0;
      } else if t == Cases {
        cases := step.0;
      } else {
        roles := step.0;
      }
      nextId := step.1;
    }

    /** `init_roles_table`: afterwards every role has its document. */
    method InitRolesTable()
      requires Valid()
      modifies this
      ensures Valid() && users == old(users) && cases == old(cases)
      ensures (roles, nextId) == SeedRows(old(roles), old(nextId), RoleRows(), "role")
      ensures forall role :: exists i :: 0 <= i < |roles| && KeyOf(roles[i], "role") == Str(RoleName(role))
    {
      LoadInitialRows(RoleRows(), Roles);
      forall role ensures exists i :: 0 <= i < |roles| && KeyOf(roles[i], "role") == Str(RoleName(role)) {
        var k := if role == Junior then 0 else if role == Senior then 1 else 2;
        var row := RoleRows()[k];
        assert row == RoleDocument(role);
        assert Settled(roles, row, "role");
        if SomeMatch(roles, row) {
          var i :| 0 <= i < |roles| && Matches(row, roles[i]);
          assert KeyOf(roles[i], "role") == row["role"];
        }
      }
    }

    /**
     * `init_users_table`: the seed rows, passwords hashed, loaded without validation. Running
     * it again leaves the users as they are (ReseedUsersNoChange).
     */
    method InitUsersTable(seed: seq<Json>, hashpw: Hasher, salts: nat -> Salt)
      requires Valid()
      modifies this
      ensures Valid() && cases == old(cases) && roles == old(roles)
      ensures (users, nextId) == SeedRows(old(users), old(nextId), SeedUserRows(seed, hashpw, salts), "username")
      ensures forall k :: 0 <= k < |seed| && "username" in seed[k] && ID !in seed[k] ==>
        exists i :: 0 <= i < |users| && KeyOf(users[i], "username") == Str(seed[k]["username"])
    {
      var rows := SeedUserRows(seed, hashpw, salts);
      forall k | 0 <= k < |rows| ensures JsonRow(rows[k]) {
        assert rows[k] == SeedUserRow(seed[k], hashpw, salts(k));
      }
      LoadInitialRows(rows, Users);
      forall k | 0 <= k < |seed| && "username" in seed[k] && ID !in seed[k]
        ensures exists i :: 0 <= i < |users| && KeyOf(users[i], "username") == Str(seed[k]["username"])
      {
        SeededUserFound(users, seed, hashpw, salts, k);
      }
    }

    /**
     * `init_cases_table`: the seed rows are validated first, so one invalid row leaves the
     * cases untouched; otherwise every seeded case can be found by its serialised name.
     */
    method InitCasesTable(seed: seq<Json>)
      requires Valid()
      modifies this
      ensures Valid() && users == old(users) && roles == old(roles)
      ensures CaseRows(seed).None? ==> cases == old(cases) && nextId == old(nextId)
      ensures CaseRows(seed).Some? ==>
        (cases, nextId) == SeedRows(old(cases), old(nextId), CaseRows(seed).value, "name")
      ensures CaseRows(seed).Some? ==> forall k :: 0 <= k < |seed| ==>
        exists i :: 0 <= i < |cases| && KeyOf(cases[i], "name") == Str(SerializeName(seed[k]["name"]))
    {
      var rows := CaseRows(seed);
      if rows.Some? {
        CaseRowsShape(seed, rows.value);
        LoadInitialRows(rows.value, Cases);
        forall k | 0 <= k < |seed|
          ensures exists i :: 0 <= i < |cases| && KeyOf(cases[i], "name") == Str(SerializeName(seed[k]["name"]))
        {
          SeededCaseFound(cases, seed, rows.value, k);
        }
      }
    }

    /**
     * The constructor's `init_db` branch: roles, then users, then cases. Every role then has
     * its document, every seeded username without an `_id` of its own is present, and, when
     * every case row validates, every seeded case is found under its serialised name.
     */
    method Initialise(userSeed: seq<Json>, caseSeed: seq<Json>, hashpw: Hasher, salts: nat -> Salt)
      requires Valid()
      modifies this
      ensures Valid()
      ensures forall role :: exists i :: 0 <= i < |roles| && KeyOf(roles[i], "role") == Str(RoleName(role))
      ensures forall k :: 0 <= k < |userSeed| && "username" in userSeed[k] && ID !in userSeed[k] ==>
        exists i :: 0 <= i < |users| && KeyOf(users[i], "username") == Str(userSeed[k]["username"])
      ensures CaseRows(caseSeed).Some? ==> forall k :: 0 <= k < |caseSeed| ==>
        exists i :: 0 <= i < |cases| && KeyOf(cases[i], "name") == Str(SerializeName(caseSeed[k]["name"]))
      ensures CaseRows(caseSeed).None? ==> cases == old(cases)
      ensures var r := SeedRows(old(roles), old(nextId), RoleRows(), "role");
        var u := SeedRows(old(users), r.1, SeedUserRows(userSeed, hashpw, salts), "username");
        && roles == r.0 && users == u.0
        && (CaseRows(caseSeed).Some? ==>
              (cases, nextId) == SeedRows(old(cases), u.1, CaseRows(caseSeed).value, "name"))
        && (CaseRows(caseSeed).None? ==> nextId == u.1)
    {
      InitRolesTable();
      InitUsersTable(userSeed, hashpw, salts);
      InitCasesTable(caseSeed);
    }

    // -------------------------------------------------------------- users

    /**
     * `register_user`: the dump's validation failure answers 422 with every message;
     * otherwise the dump is stored as Registration says.
     */
    method RegisterUser(req: Json, hashpw: Hasher, salt: Salt) returns (r: Response)
      requires Valid()
      modifies this
      ensures Valid() && cases == old(cases) && roles == old(roles)
      ensures UserModel.UserDump(req, limits, hashpw, salt).Failure? ==>
        r == ErrorResponse(JoinMessages(IssueMessages(UserModel.UserDump(req, limits, hashpw, salt).error, limits)), 422)
        && users == old(users) && nextId == old(nextId)
      ensures UserModel.UserDump(req, limits, hashpw, salt).Success? ==>
        (users, nextId, r) == Registration(old(users), old(nextId), UserModel.UserDump(req, limits, hashpw, salt).value)
    {
      var dump := UserModel.UserDump(req, limits, hashpw, salt);
      if dump.Failure? {
        r := HandleDbError(ValidationError(IssueMessages(dump.error, limits)));
        return;
      }
      UserModel.UserDumpContents(req, limits, hashpw, salt);
      r := InsertUser(dump.value);
    }

    /** The lookup of the dumped username and the insert of a new user. */
    method InsertUser(data: Doc) returns (r: Response)
      requires Valid() && "username" in data
      modifies this
      ensures Valid() && cases == old(cases) && roles == old(roles)
      ensures (users, nextId, r) == Registration(old(users), old(nextId), data)
    {
      var found := FirstMatch(users, map["username" := data["username"]]);
      if found.Some? {
        r := HandleDbError(DuplicateKeyError("User already exists"));
        return;
      }
      var doc := data[ID := Oid(nextId)];
      forall i | 0 <= i < |users| ensures KeyOf(users[i], "username") != KeyOf(doc, "username") {
        assert !Matches(map["username" := data["username"]], users[i]);
      }
      AppendIndexed(users, nextId, "username", doc);
      assert IdsBelow(cases, nextId + 1) && IdsBelow(roles, nextId + 1);
      users := users + [doc];
      nextId := nextId + 1;
      r := Response(200, RecordBody(doc));
    }

    /**
     * The index of the user a login names, or what it raises: parameters missing or empty;
     * no user under the normalised username; a stored password field that is missing (a key
     * error), an object id (a decoding error), null, or a digest the password does not match.
     */
    function LoginUser(req: Json, checkpw: Checker): (r: Result<nat, Raised>)
      reads this
      ensures r.Success? ==> (r.value < |users| && "username" in req
        && KeyOf(users[r.value], "username") == Str(Lower(Strip(req["username"]))))
      ensures r.Success? ==> ("password" in users[r.value] && users[r.value]["password"].Str?
        && CheckPassword(checkpw, Get(req, "password"), Some(users[r.value]["password"].s)))
      ensures !(Truthy(Get(req, "username")) && Truthy(Get(req, "password"))) ==>
        r == Failure(InvalidOperation("Missing parameters username and/or password"))
      ensures (Truthy(Get(req, "username")) && Truthy(Get(req, "password"))
        && (forall i :: 0 <= i < |users| ==> KeyOf(users[i], "username") != Str(Lower(Strip(req["username"]))))) ==>
        r == Failure(AuthenticationError)
    {
      if !(Truthy(Get(req, "username")) && Truthy(Get(req, "password"))) then
        Failure(InvalidOperation("Missing parameters username and/or password"))
      else
        var filter := map["username" := Str(Lower(Strip(req["username"])))];
        match FirstMatch(users, filter)
        case None => Failure(AuthenticationError)
        case Some(i) =>
          assert KeyOf(users[i], "username") == filter["username"];
          if "password" !in users[i] then Failure(OtherError("password"))
          else match users[i]["password"]
            case Oid(_) => Failure(OtherError(DECODE_ERROR))
            case Null => Failure(AuthenticationError)
            case Str(s) =>
              if CheckPassword(checkpw, Get(req, "password"), Some(s)) then Success(i) else Failure(AuthenticationError)
    }

    /** `login`: the stored user sent back, or the error response of what the lookup raised. */
    function Login(req: Json, checkpw: Checker): (r: Response)
      reads this
      ensures IsSuccess(r) <==> LoginUser(req, checkpw).Success?
      ensures IsSuccess(r) ==> r == Response(200, RecordBody(users[LoginUser(req, checkpw).value]))
      ensures !IsSuccess(r) ==> r.body.ErrorBody? && r.status in {400, 401, 500}
    {
      match LoginUser(req, checkpw)
      case Success(i) => Response(200, RecordBody(users[i]))
      case Failure(e) => HandleDbError(e)
    }

    /**
     * With unique usernames, a login naming a stored user has the outcome that user's stored
     * password decides, and a login succeeds exactly when its password checks.
     */
    lemma LoginOutcome(req: Json, checkpw: Checker, i: nat)
      requires Valid() && i < |users|
      requires Truthy(Get(req, "username")) && Truthy(Get(req, "password"))
      requires KeyOf(users[i], "username") == Str(Lower(Strip(req["username"])))
      ensures "password" !in users[i] ==> Login(req, checkpw) == ErrorResponse("password", 500)
      ensures "password" in users[i] && users[i]["password"].Oid? ==> Login(req, checkpw) == ErrorResponse(DECODE_ERROR, 500)
      ensures "password" in users[i] && users[i]["password"].Null? ==> Login(req, checkpw) == ErrorResponse("Authentication failed", 401)
      ensures "password" in users[i] && users[i]["password"].Str? ==>
        if CheckPassword(checkpw, Get(req, "password"), Some(users[i]["password"].s))
        then Login(req, checkpw) == Response(200, RecordBody(users[i]))
        else Login(req, checkpw) == ErrorResponse("Authentication failed", 401)
    {
      UniqueFirstMatch(users, "username", i);
    }

    /**
     * `change_user_role`: log in with the request, then set the logged-in user's role.
     * The update is addressed by the user's `_id`, which is unique, so it reaches that user.
     */
    method ChangeUserRole(req: Json, to: RoleEnum, checkpw: Checker, acknowledged: bool) returns (r: Response)
      requires Valid()
      modifies this
      ensures Valid() && cases == old(cases) && roles == old(roles) && nextId == old(nextId)
      ensures (users, r) == RoleChange(old(users), old(LoginUser(req, checkpw)), to, acknowledged)
    {
      var res := Login(req, checkpw);
      if !IsSuccess(res) {
        r := res;
        return;
      }
      var payload := res.body.record;
      if KeyOf(payload, "role") == Str(RoleName(to)) {
        r := SuccessResponse("User is already a " + RoleName(to));
        return;
      }
      ghost var k := LoginUser(req, checkpw).value;
      UniqueFirstMatch(users, ID, k);
      var target := FirstMatch(users, map[ID := KeyOf(payload, ID)]);
      if target.Some? {
        var j := target.value;
        SetFieldIndexed(users, nextId, "username", j, "role", Str(RoleName(to)));
        users := users[j := users[j]["role" := Str(RoleName(to))]];
      }
      if acknowledged {
        r := SuccessResponse(RoleChangedMessage(to));
      } else {
        r := HandleDbError(OtherError(WRITE_ERROR_ARGS_ERROR));
      }
    }

    /** `promote_user`: a role change to Senior, whatever the user's role was. */
    method PromoteUser(req: Json, checkpw: Checker, acknowledged: bool) returns (r: Response)
      requires Valid()
      modifies this
      ensures Valid() && cases == old(cases) && roles == old(roles) && nextId == old(nextId)
      ensures (users, r) == RoleChange(old(users), old(LoginUser(req, checkpw)), Senior, acknowledged)
    {
      r := ChangeUserRole(req, Senior, checkpw, acknowledged);
    }

    /** `demote_user`: a role change to Junior. */
    method DemoteUser(req: Json, checkpw: Checker, acknowledged: bool) returns (r: Response)
      requires Valid()
      modifies this
      ensures Valid() && cases == old(cases) && roles == old(roles) && nextId == old(nextId)
      ensures (users, r) == RoleChange(old(users), old(LoginUser(req, checkpw)), Junior, acknowledged)
    {
      r := ChangeUserRole(req, Junior, checkpw, acknowledged);
    }

    // -------------------------------------------------------------- cases

    /** `get_cases`: every case with its name serialised; on a valid store it cannot fail. */
    function GetCases(): (r: Response)
      reads this
      ensures Valid() ==> (r.status == 200 && r.body.ListBody? && |r.body.records| == |cases|
        && forall i :: 0 <= i < |cases| ==> RowSerialized(cases[i], r.body.records[i]))
    {
      match SerializeNameEntries(cases)
      case Some(rows) => Response(200, ListBody(rows))
      case None => HandleDbError(OtherError(STRIP_ERROR))
    }

    /**
     * `upsert_case`: the dump's validation failure answers 422; otherwise the case stored
     * under the dumped name gets the dump's fields, or is created, and is sent back with its id.
     */
    method UpsertCase(req: Json) returns (r: Response)
      requires Valid()
      modifies this
      ensures Valid() && users == old(users) && roles == old(roles)
      ensures CaseModel.CaseDump(req).Failure? ==>
        r == ErrorResponse(JoinMessages(IssueMessages(CaseModel.CaseDump(req).error, limits)), 422)
        && cases == old(cases) && nextId == old(nextId)
      ensures CaseModel.CaseDump(req).Success? ==>
        var out := Upserted(old(cases), old(nextId), CaseModel.CaseDump(req).value);
        cases == out.0 && nextId == out.1 && r == Response(200, RecordBody(out.2))
    {
      var dump := CaseModel.CaseDump(req);
      if dump.Failure? {
        r := HandleDbError(ValidationError(IssueMessages(dump.error, limits)));
        return;
      }
      CaseModel.CaseDumpContents(req);
      r := StoreCase(dump.value);
    }

    /**
     * `update_one({"name": ...}, {"$set": data}, upsert=True)`: the first case with the name
     * has the fields set, or a new case is inserted; `upserted_id` is the new case's id.
     */
    method UpdateOne(data: Doc) returns (upsertedId: Option<Value>)
      requires Valid() && "name" in data && data["name"].Str? && ID !in data
      modifies this
      ensures Valid() && users == old(users) && roles == old(roles)
      ensures var out := Upserted(old(cases), old(nextId), data);
        cases == out.0 && nextId == out.1
      ensures upsertedId == if FirstMatch(old(cases), map["name" := data["name"]]).Some? then None
        else Some(Oid(old(nextId)))
    {
      var filter := map["name" := data["name"]];
      var m := FirstMatch(cases, filter);
      if m.Some? {
        var i := m.value;
        var t := cases[i := cases[i] + data];
        assert Indexed(t, nextId, "name") by {
          assert KeyOf(cases[i], "name") == data["name"];
          assert forall j :: 0 <= j < |t| ==> KeyOf(t[j], "name") == KeyOf(cases[j], "name") && KeyOf(t[j], ID) == KeyOf(cases[j], ID);
        }
        cases := t;
        upsertedId := None;
      } else {
        var doc := data[ID := Oid(nextId)];
        var t := cases + [doc];
        forall i | 0 <= i < |cases| ensures KeyOf(cases[i], "name") != KeyOf(doc, "name") {
          assert !Matches(filter, cases[i]);
        }
        AppendIndexed(cases, nextId, "name", doc);
        assert forall i :: 0 <= i < |cases| ==> t[i] == cases[i];
        assert IdsBelow(users, nextId + 1) && IdsBelow(roles, nextId + 1);
        cases := t;
        nextId := nextId + 1;
        upsertedId := Some(Oid(nextId - 1));
      }
    }

    /** The update-or-insert under the dumped name, then the lookup of the case's id. */
    method StoreCase(data: Doc) returns (r: Response)
      requires Valid() && "name" in data && data["name"].Str? && ID !in data
      modifies this
      ensures Valid() && users == old(users) && roles == old(roles)
      ensures var out := Upserted(old(cases), old(nextId), data);
        cases == out.0 && nextId == out.1 && r == Response(200, RecordBody(out.2))
    {
      var filter := map["name" := data["name"]];
      ghost var m := FirstMatch(cases, filter);
      ghost var before := cases;
      var upsertedId := UpdateOne(data);
      var id: Value;
      if upsertedId.Some? {
        id := upsertedId.value;
      } else {
        var i := m.value;
        assert Matches(filter, cases[i]);
        var existing := FirstMatch(cases, filter);
        assert existing == Some(i) by {
          assert forall j :: 0 <= j < i ==> cases[j] == before[j];
        }
        id := KeyOf(cases[existing.value], ID);
      }
      r := Response(200, RecordBody(data[ID := id]));
    }
  }
}
