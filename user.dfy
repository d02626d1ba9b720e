/**
 * The `User` model: the before-validators of `name`, `username` and `password`, the role
 * default, and the dump that serialises `name`.
 */
module UserModel {
  import opened Wrappers
  import opened Documents
  import opened StringUtils
  import opened RoleModel
  import opened ErrorModel

  // ---------------------------------------------------------------- character classes

  predicate IsDigit(c: char) { '0' <= c <= '9' }

  /** `[A-Za-z0-9_]`. */
  predicate IsWordChar(c: char) { IsAsciiUpper(c) || IsAsciiLower(c) || IsDigit(c) || c == '_' }

  /** `[$&+,:;=?@#|'<>.^*()%!-]`. */
  predicate IsSpecial(c: char) { c in "$&+,:;=?@#|'<>.^*()%!-" }

  /** `re.search` of a one-character class: some character of `s` satisfies `p`. */
  function Search(s: string, p: char -> bool): (r: bool)
    ensures r <==> exists i :: 0 <= i < |s| && p(s[i])
  {
    if s == [] then false
    else if p(s[0]) then true
    else
      var found := Search(s[1..], p);
      assert forall i :: 1 <= i < |s| ==> s[i] == s[1..][i - 1];
      found
  }

  // ---------------------------------------------------------------- the rules

  /** Whether `value` breaks `rule`; stated directly over the characters of `value`. */
  ghost predicate Breaks(rule: PydanticError, value: string, limits: PasswordLimits)
  {
    match rule
    case UsernameInvalidCharacter => exists i :: 0 <= i < |value| && !IsWordChar(value[i])
    case UsernameNumberStart => |value| > 0 && IsDigit(value[0])
    case PasswordMissingUppercase => forall i :: 0 <= i < |value| ==> !IsAsciiUpper(value[i])
    case PasswordMissingLowercase => forall i :: 0 <= i < |value| ==> !IsAsciiLower(value[i])
    case PasswordMissingSpecial => forall i :: 0 <= i < |value| ==> !IsSpecial(value[i])
    case PasswordTooShort => |value| < limits.minLength
    case PasswordTooLong => |value| > limits.maxLength
  }

  /** The order in which the username validator checks its rules. */
  const USERNAME_RULES: seq<PydanticError> := [UsernameInvalidCharacter, UsernameNumberStart]

  /** The order in which the password validator checks its rules. */
  const PASSWORD_RULES: seq<PydanticError> :=
    [PasswordMissingUppercase, PasswordMissingLowercase, PasswordMissingSpecial, PasswordTooShort, PasswordTooLong]

  ghost predicate NoneBroken(rules: seq<PydanticError>, value: string, limits: PasswordLimits)
  {
    forall j :: 0 <= j < |rules| ==> !Breaks(rules[j], value, limits)
  }

  /** `e` is the first of `rules` that `value` breaks. */
  ghost predicate FirstBroken(rules: seq<PydanticError>, value: string, limits: PasswordLimits, e: PydanticError)
  {
    exists j :: 0 <= j < |rules| && rules[j] == e && Breaks(e, value, limits)
      && forall k :: 0 <= k < j ==> !Breaks(rules[k], value, limits)
  }

  // ---------------------------------------------------------------- validators

  /** `parse_name`: the stored name is the stripped, lower-cased input. */
  function ParseName(raw: string): string
  {
    Lower(Strip(raw))
  }

  /**
   * `validate_username`: normalise (strip, lower-case), then reject any character outside
   * `[A-Za-z0-9_]`, then reject a leading digit; the first failing rule is reported.
   */
  function ValidateUsername(raw: string): (r: Result<string, PydanticError>)
    ensures r.Success? <==> NoneBroken(USERNAME_RULES, Lower(Strip(raw)), PasswordLimits(0, 0))
    ensures r.Success? ==> r.value == Lower(Strip(raw))
    ensures r.Failure? ==> FirstBroken(USERNAME_RULES, Lower(Strip(raw)), PasswordLimits(0, 0), r.error)
  {
    var username := Lower(Strip(raw));
    var none := PasswordLimits(0, 0);
    if Search(username, c => !IsWordChar(c)) then
      assert Breaks(USERNAME_RULES[0], username, none);
      Failure(UsernameInvalidCharacter)
    else
      assert !Breaks(USERNAME_RULES[0], username, none);
      if |username| > 0 && IsDigit(username[0]) then
        assert Breaks(USERNAME_RULES[1], username, none);
        Failure(UsernameNumberStart)
      else
        assert !Breaks(USERNAME_RULES[1], username, none);
        Success(username)
  }

  /** Rule `j` is broken and every earlier rule holds: rule `j` is the one reported. */
  lemma BrokenAt(rules: seq<PydanticError>, value: string, limits: PasswordLimits, j: nat)
    requires j < |rules| && Breaks(rules[j], value, limits)
    requires forall k :: 0 <= k < j ==> !Breaks(rules[k], value, limits)
    ensures FirstBroken(rules, value, limits, rules[j])
  {
  }

  /**
   * `validate_password`: five rules in a fixed order, the first failing one reported; a
   * password passing all of them is replaced by the digest of the unstripped input.
   */
  function ValidatePassword(password: string, limits: PasswordLimits, hashpw: Hasher, salt: Salt)
    : (r: Result<string, PydanticError>)
    ensures r.Success? <==> NoneBroken(PASSWORD_RULES, password, limits)
    ensures r.Success? ==> HashPassword(hashpw, password, salt) == Some(r.value)
    ensures r.Failure? ==> FirstBroken(PASSWORD_RULES, password, limits, r.error)
  {
    var rules := PASSWORD_RULES;
    if !Search(password, IsAsciiUpper) then
      BrokenAt(rules, password, limits, 0);
      Failure(PasswordMissingUppercase)
    else
      assert !Breaks(rules[0], password, limits);
      if !Search(password, IsAsciiLower) then
        BrokenAt(rules, password, limits, 1);
        Failure(PasswordMissingLowercase)
      else
        assert !Breaks(rules[1], password, limits);
        if !Search(password, IsSpecial) then
          BrokenAt(rules, password, limits, 2);
          Failure(PasswordMissingSpecial)
        else
          assert !Breaks(rules[2], password, limits);
          if |password| < limits.minLength then
            BrokenAt(rules, password, limits, 3);
            Failure(PasswordTooShort)
          else
            assert !Breaks(rules[3], password, limits);
            if |password| > limits.maxLength then
              BrokenAt(rules, password, limits, 4);
              Failure(PasswordTooLong)
            else
              assert !Breaks(rules[4], password, limits);
              assert password != "";
              Success(HashPassword(hashpw, password, salt).value)
  }

  /**
   * An accepted username is lower case, made of `[a-z0-9_]`, does not begin with a digit, and
   * validates again to itself.
   */
  lemma AcceptedUsername(raw: string)
    requires ValidateUsername(raw).Success?
    ensures var u := ValidateUsername(raw).value;
      && (forall i :: 0 <= i < |u| ==> IsWordChar(u[i]) && !IsAsciiUpper(u[i]))
      && (u == [] || !IsDigit(u[0]))
      && ValidateUsername(u) == Success(u)
  {
    var u := ValidateUsername(raw).value;
    assert !Breaks(USERNAME_RULES[0], u, PasswordLimits(0, 0));
    assert !Breaks(USERNAME_RULES[1], u, PasswordLimits(0, 0));
    if u != [] {
      assert IsWordChar(u[0]) && IsWordChar(u[|u| - 1]);
      StripUnchanged(u);
    }
    assert Lower(u) == u;
  }

  /** `9bob!` and `bob!` have a bad character, `9bob` a digit start. */
  lemma UsernameExampleA()
    ensures ValidateUsername("9bob!") == Failure(UsernameInvalidCharacter)
  {
    StripUnchanged("9bob!");
    assert Lower("9bob!") == "9bob!";
    assert !IsWordChar("9bob!"[4]);
  }

  lemma UsernameExampleB()
    ensures ValidateUsername("bob!") == Failure(UsernameInvalidCharacter)
  {
    StripUnchanged("bob!");
    assert Lower("bob!") == "bob!";
    assert !IsWordChar("bob!"[3]);
  }

  lemma UsernameExampleC()
    ensures ValidateUsername("9bob") == Failure(UsernameNumberStart)
  {
    StripUnchanged("9bob");
    assert Lower("9bob") == "9bob";
    assert !Breaks(UsernameInvalidCharacter, "9bob", PasswordLimits(0, 0));
  }

  lemma UsernameExampleD()
    ensures ValidateUsername("bob_9") == Success("bob_9")
  {
    StripUnchanged("bob_9");
    assert Lower("bob_9") == "bob_9";
    assert !Breaks(UsernameInvalidCharacter, "bob_9", PasswordLimits(0, 0));
  }

  /** `abcdefgh` has no upper-case letter, the rule checked first. */
  lemma PasswordExampleRejected(limits: PasswordLimits, hashpw: Hasher, salt: Salt)
    ensures ValidatePassword("abcdefgh", limits, hashpw, salt) == Failure(PasswordMissingUppercase)
  {
    var p := "abcdefgh";
    assert forall i :: 0 <= i < |p| ==> !IsAsciiUpper(p[i]);
  }

  /** `Abcdefg!` passes every rule within the limits and is replaced by its digest. */
  lemma PasswordExampleAccepted(limits: PasswordLimits, hashpw: Hasher, salt: Salt)
    requires limits.minLength <= 8 <= limits.maxLength
    ensures ValidatePassword("Abcdefg!", limits, hashpw, salt) == Success(hashpw("Abcdefg!", salt))
  {
    var p := "Abcdefg!";
    assert IsAsciiUpper(p[0]) && IsAsciiLower(p[1]) && IsSpecial(p[7]);
  }

  // ---------------------------------------------------------------- the whole model

  /** The issues of one field: none when it validated. */
  function IssuesOf<T>(r: Result<T, Issue>): seq<Issue>
  {
    if r.Success? then [] else [r.error]
  }

  function CustomIssue<T>(r: Result<T, PydanticError>): Result<T, Issue>
  {
    match r
    case Success(v) => Success(v)
    case Failure(e) => Failure(Custom(e))
  }

  function NameField(req: Json): Result<string, Issue>
  {
    if "name" in req then Success(ParseName(req["name"])) else Failure(FieldRequired("name"))
  }

  function UsernameField(req: Json): Result<string, Issue>
  {
    if "username" in req then CustomIssue(ValidateUsername(req["username"])) else Failure(FieldRequired("username"))
  }

  function PasswordField(req: Json, limits: PasswordLimits, hashpw: Hasher, salt: Salt): Result<string, Issue>
  {
    if "password" in req then CustomIssue(ValidatePassword(req["password"], limits, hashpw, salt))
    else Failure(FieldRequired("password"))
  }

  /** `role` defaults to Junior when absent; when present it must be a role's exact value. */
  function RoleField(req: Json): (r: Result<RoleEnum, Issue>)
    ensures "role" !in req ==> r == Success(Junior)
    ensures "role" in req ==> (r.Success? <==> ParseRole(req["role"]).Some?)
  {
    if "role" !in req then Success(Junior)
    else match ParseRole(req["role"])
      case Some(role) => Success(role)
      case None => Failure(NotARole)
  }

  /** The dumped document of a user: four string fields. */
  function DumpDoc(name: string, username: string, password: string, role: string): (d: Doc)
    ensures d.Keys == {"name", "username", "password", "role"}
    ensures d["name"] == Str(name) && d["username"] == Str(username)
    ensures d["password"] == Str(password) && d["role"] == Str(role)
  {
    map["name" := Str(name), "username" := Str(username), "password" := Str(password), "role" := Str(role)]
  }

  /**
   * `User(**data).model_dump()`: every field is validated and every failing field reports one
   * issue, in field order (name, username, password, role); on success the dump holds the
   * serialised name, the normalised username, the digest and the role's value.
   */
  function UserDump(req: Json, limits: PasswordLimits, hashpw: Hasher, salt: Salt): (r: Result<Doc, seq<Issue>>)
    ensures r.Failure? ==> |r.error| >= 1
  {
    var name := NameField(req);
    var username := UsernameField(req);
    var password := PasswordField(req, limits, hashpw, salt);
    var role := RoleField(req);
    var issues := IssuesOf(name) + IssuesOf(username) + IssuesOf(password) + IssuesOf(role);
    if issues != [] then Failure(issues)
    else Success(DumpDoc(SerializeName(name.value), username.value, password.value, RoleName(role.value)))
  }

  /** Dumping the stored (stripped, lower-cased) name gives `serialize_name` of the raw name. */
  lemma DumpedName(raw: string)
    ensures SerializeName(ParseName(raw)) == SerializeName(raw)
  {
    SerializeNameIgnoresCase(Strip(raw));
    StripIdempotent(raw);
  }

  /** A registration dump succeeds exactly when every field is present and valid. */
  lemma UserDumpSucceeds(req: Json, limits: PasswordLimits, hashpw: Hasher, salt: Salt)
    ensures UserDump(req, limits, hashpw, salt).Success? <==>
      && "name" in req && "username" in req && "password" in req
      && ValidateUsername(req["username"]).Success?
      && ValidatePassword(req["password"], limits, hashpw, salt).Success?
      && RoleField(req).Success?
  {
    var name := NameField(req);
    var username := UsernameField(req);
    var password := PasswordField(req, limits, hashpw, salt);
    var role := RoleField(req);
    assert IssuesOf(name) + IssuesOf(username) + IssuesOf(password) + IssuesOf(role) == []
      <==> name.Success? && username.Success? && password.Success? && role.Success?;
  }

  /** A successful dump has every field validated. */
  lemma DumpedFieldsSucceed(req: Json, limits: PasswordLimits, hashpw: Hasher, salt: Salt)
    requires UserDump(req, limits, hashpw, salt).Success?
    ensures NameField(req).Success? && UsernameField(req).Success?
    ensures PasswordField(req, limits, hashpw, salt).Success? && RoleField(req).Success?
  {
  }

  lemma PasswordFieldValue(req: Json, limits: PasswordLimits, hashpw: Hasher, salt: Salt)
    requires PasswordField(req, limits, hashpw, salt).Success?
    ensures "password" in req && PasswordField(req, limits, hashpw, salt).value == hashpw(req["password"], salt)
  {
    var v := ValidatePassword(req["password"], limits, hashpw, salt);
    assert HashPassword(hashpw, req["password"], salt) == Some(v.value);
  }

  lemma RoleFieldValue(req: Json)
    requires RoleField(req).Success?
    ensures RoleName(RoleField(req).value) == if "role" in req then req["role"] else "Junior"
  {
  }

  /** The successful dump, field by field, before the name is related to the raw input. */
  lemma UserDumpValue(req: Json, limits: PasswordLimits, hashpw: Hasher, salt: Salt)
    requires UserDump(req, limits, hashpw, salt).Success?
    ensures UserDump(req, limits, hashpw, salt).value == DumpDoc(
      SerializeName(ParseName(req["name"])), Lower(Strip(req["username"])),
      hashpw(req["password"], salt), if "role" in req then req["role"] else "Junior")
  {
    DumpedFieldsSucceed(req, limits, hashpw, salt);
    PasswordFieldValue(req, limits, hashpw, salt);
    RoleFieldValue(req);
  }

  /**
   * What a successful registration dump holds: `serialize_name` of the raw name, the normalised
   * username, the digest of the unstripped password, and the requested role or Junior.
   */
  lemma UserDumpContents(req: Json, limits: PasswordLimits, hashpw: Hasher, salt: Salt)
    requires UserDump(req, limits, hashpw, salt).Success?
    ensures var d := UserDump(req, limits, hashpw, salt).value;
      && d.Keys == {"name", "username", "password", "role"}
      && d["name"] == Str(SerializeName(req["name"]))
      && d["username"] == Str(Lower(Strip(req["username"])))
      && d["password"] == Str(hashpw(req["password"], salt))
      && d["role"] == Str(if "role" in req then req["role"] else "Junior")
  {
    UserDumpValue(req, limits, hashpw, salt);
    DumpedName(req["name"]);
  }

  /**
   * The issues come in field order, one per failing field: a missing field is required, a
   * username or password the validator rejects reports the validator's error, and a role that
   * is not a member's value is not a role.
   */
  lemma UserDumpIssues(req: Json, limits: PasswordLimits, hashpw: Hasher, salt: Salt)
    requires UserDump(req, limits, hashpw, salt).Failure?
    ensures UserDump(req, limits, hashpw, salt).error
         == (if "name" in req then [] else [FieldRequired("name")])
          + (if "username" !in req then [FieldRequired("username")]
             else if ValidateUsername(req["username"]).Failure?
             then [Custom(ValidateUsername(req["username"]).error)] else [])
          + (if "password" !in req then [FieldRequired("password")]
             else if ValidatePassword(req["password"], limits, hashpw, salt).Failure?
             then [Custom(ValidatePassword(req["password"], limits, hashpw, salt).error)] else [])
          + (if "role" in req && ParseRole(req["role"]).None? then [NotARole] else [])
  {
  }
}
