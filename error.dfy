/** The validation messages of the models and the password length limits they quote. */
module ErrorModel {

  /** `MIN_PASSWORD_LENGTH` and `MAX_PASSWORD_LENGTH`, whose values are configuration. */
  datatype PasswordLimits = PasswordLimits(minLength: nat, maxLength: nat)

  /** The custom validation errors the `User` validators raise. */
  datatype PydanticError =
    | UsernameInvalidCharacter
    | UsernameNumberStart
    | PasswordMissingUppercase
    | PasswordMissingLowercase
    | PasswordMissingSpecial
    | PasswordTooShort
    | PasswordTooLong

  /** Decimal digits of a natural number, as an f-string renders it. */
  function Decimal(n: nat): string
  {
    var d := ["0123456789"[n % 10]];
    if n < 10 then d else Decimal(n / 10) + d
  }

  /** The message of each error. `PasswordTooLong` says "at least", as the source's text does. */
  function Message(e: PydanticError, limits: PasswordLimits): string
  {
    match e
    case UsernameInvalidCharacter => "Username should only contain letters, numbers and underscores"
    case UsernameNumberStart => "Username cannot begin with a number"
    case PasswordMissingUppercase => "Password should contain at least one uppercase character"
    case PasswordMissingLowercase => "Password should contain at least one lowercase character"
    case PasswordMissingSpecial => "Password should contain at least one special character"
    case PasswordTooShort => "Password should be at least " + Decimal(limits.minLength) + " characters long"
    case PasswordTooLong => "Password should be at least " + Decimal(limits.maxLength) + " characters long"
  }

  /** With a minimum of 8 the too-short message quotes 8. */
  lemma TooShortMessage(limits: PasswordLimits)
    requires limits.minLength == 8
    ensures Message(PasswordTooShort, limits) == "Password should be at least 8 characters long"
  {
  }

  /** With a maximum of 64 the too-long message quotes 64 in decimal, and still reads "at least". */
  lemma TooLongMessage(limits: PasswordLimits)
    requires limits.maxLength == 64
    ensures Message(PasswordTooLong, limits) == "Password should be at least 64 characters long"
  {
    assert Decimal(64) == "64" by {
      assert Decimal(6) == "6";
    }
  }

  /**
   * One entry of a model's validation failure: a custom error, or one of the validation
   * library's own errors (a missing field, a value that is not a role).
   */
  datatype Issue = Custom(error: PydanticError) | FieldRequired(field: string) | NotARole

  function IssueMessage(i: Issue, limits: PasswordLimits): string
  {
    match i
    case Custom(e) => Message(e, limits)
    case FieldRequired(_) => "Field required"
    case NotARole => "Input should be 'Junior', 'Senior' or 'Admin'"
  }
}
