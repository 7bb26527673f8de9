/**
 * The request validators. Each is a function of the request fields and a
 * snapshot of the tables it queries; none of them writes.
 */
module Serializers {
  import opened Wrappers
  import opened Http
  import opened Users
  import opened Reviews

  /**
   * What the validators take from outside: the regular-expression word class
   * `\w` (Unicode-aware), the framework's e-mail validator, and the
   * configured maximum lengths of the username, email and code fields.
   */
  datatype FieldRules = FieldRules(
    isWord: char -> bool,
    isEmail: string -> bool,
    maxUsername: nat,
    maxEmail: nat,
    maxCode: nat)

  /** The fields a sign-up echoes back. */
  datatype SignUpData = SignUpData(username: string, email: string)

  /** The validated fields of a token request. */
  datatype TokenRequest = TokenRequest(username: string, code: string)

  // ---------------------------------------------------------------------------
  // Username

  /** A member of the character class `[\w.@+-]`. */
  predicate UsernameChar(isWord: char -> bool, c: char)
  {
    isWord(c) || c == '.' || c == '@' || c == '+' || c == '-'
  }

  /** The strings `^[\w.@+-]+\Z` describes: non-empty, every character in the class. */
  ghost predicate InUsernameLanguage(isWord: char -> bool, s: string)
  {
    |s| > 0 && forall i :: 0 <= i < |s| ==> UsernameChar(isWord, s[i])
  }

  /** How many characters the greedy `[\w.@+-]+` consumes from the start of `s`. */
  function ClassRun(isWord: char -> bool, s: string): (n: nat)
    ensures n <= |s|
    ensures forall i :: 0 <= i < n ==> UsernameChar(isWord, s[i])
    ensures n < |s| ==> !UsernameChar(isWord, s[n])
  {
    if s == [] || !UsernameChar(isWord, s[0]) then 0
    else 1 + ClassRun(isWord, s[1..])
  }

  /** `re.match` of the username pattern: the run is non-empty and `\Z` then finds the end. */
  predicate MatchesUsernamePattern(isWord: char -> bool, s: string)
    ensures MatchesUsernamePattern(isWord, s) <==> InUsernameLanguage(isWord, s)
  {
    var n := ClassRun(isWord, s);
    n > 0 && n == |s|
  }

  /** The mixin's username check: the reserved name first, then the pattern. */
  function ValidateUsername(isWord: char -> bool, value: string): (r: Result<string, ApiError>)
    ensures r.Ok? <==> value != "me" && InUsernameLanguage(isWord, value)
    ensures r.Ok? ==> r.value == value
    ensures value == "me" ==> r == Err(Invalid(ReservedUsername))
    ensures value != "me" && !InUsernameLanguage(isWord, value) ==> r == Err(Invalid(InvalidUsernameChars))
  {
    if value == "me" then Err(Invalid(ReservedUsername))
    else if !MatchesUsernamePattern(isWord, value) then Err(Invalid(InvalidUsernameChars))
    else Ok(value)
  }

  /** The empty name is refused: `+` needs at least one character. */
  lemma EmptyUsernameRejected(isWord: char -> bool)
    ensures ValidateUsername(isWord, "") == Err(Invalid(InvalidUsernameChars))
  {
  }

  /** A name with a character outside the class is refused. */
  lemma UsernameRejections(isWord: char -> bool, s: string, i: int)
    requires 0 <= i < |s| && !UsernameChar(isWord, s[i])
    ensures ValidateUsername(isWord, s).Err?
    ensures s != "me" ==> ValidateUsername(isWord, s) == Err(Invalid(InvalidUsernameChars))
  {
  }

  /** `\Z`, unlike `$`, does not let a final newline through. */
  lemma TrailingNewlineRejected(isWord: char -> bool, s: string)
    requires !isWord('\n')
    ensures ValidateUsername(isWord, s + "\n") == Err(Invalid(InvalidUsernameChars))
  {
    var t := s + "\n";
    assert t[|s|] == '\n' && !UsernameChar(isWord, t[|s|]);
    assert t != "me";
  }

  /** Sign-up's username field: the length limit, then the mixin's check. */
  function ValidateUsernameField(rules: FieldRules, value: string): (r: Result<string, ApiError>)
    ensures r.Ok? <==> |value| <= rules.maxUsername && value != "me" && InUsernameLanguage(rules.isWord, value)
    ensures r.Ok? ==> r.value == value
    ensures r.Err? ==> r.error.Invalid?
    ensures |value| > rules.maxUsername ==> r == Err(Invalid(TooLong(UsernameField)))
    ensures |value| <= rules.maxUsername ==> r == ValidateUsername(rules.isWord, value)
    ensures |value| <= rules.maxUsername && value == "me" ==> r == Err(Invalid(ReservedUsername))
  {
    if |value| > rules.maxUsername then Err(Invalid(TooLong(UsernameField)))
    else ValidateUsername(rules.isWord, value)
  }

  /** An email field: the length limit, then the e-mail format. */
  function ValidateEmailField(rules: FieldRules, value: string): (r: Result<string, ApiError>)
    ensures r.Ok? <==> |value| <= rules.maxEmail && rules.isEmail(value)
    ensures r.Ok? ==> r.value == value
    ensures |value| > rules.maxEmail ==> r == Err(Invalid(TooLong(EmailField)))
    ensures |value| <= rules.maxEmail && !rules.isEmail(value) ==> r == Err(Invalid(InvalidEmail))
  {
    if |value| > rules.maxEmail then Err(Invalid(TooLong(EmailField)))
    else if !rules.isEmail(value) then Err(Invalid(InvalidEmail))
    else Ok(value)
  }

  // ---------------------------------------------------------------------------
  // Title year and review score

  /** The title year check against the current calendar year. */
  function ValidateYear(value: int, currentYear: int): (r: Result<int, ApiError>)
    ensures r.Ok? <==> YearInRange(value, currentYear)
    ensures r.Ok? ==> r.value == value
    ensures r.Err? ==> r.error == Invalid(YearOutOfRange)
  {
    if value > currentYear || value < 0 then Err(Invalid(YearOutOfRange))
    else Ok(value)
  }

  /** The review score field: at least 1 and at most 10. */
  function ValidateScore(value: int): (r: Result<int, ApiError>)
    ensures r.Ok? <==> ScoreInRange(value)
    ensures r.Ok? ==> r.value == value
    ensures r.Err? ==> r.error == Invalid(ScoreOutOfRange)
  {
    if value < 1 then Err(Invalid(ScoreOutOfRange))
    else if value > 10 then Err(Invalid(ScoreOutOfRange))
    else Ok(value)
  }

  // ---------------------------------------------------------------------------
  // Sign-up and user creation

  /** Sign-up's field checks, username first. */
  function SignUpFields(rules: FieldRules, username: string, email: string): (r: Result<SignUpData, ApiError>)
    ensures r.Ok? <==> ValidateUsernameField(rules, username).Ok? && ValidateEmailField(rules, email).Ok?
    ensures r.Ok? ==> r.value == SignUpData(username, email)
    ensures r.Err? ==> r.error.Invalid?
    ensures ValidateUsernameField(rules, username).Err? ==> r == Err(ValidateUsernameField(rules, username).error)
    ensures ValidateUsernameField(rules, username).Ok? && ValidateEmailField(rules, email).Err? ==>
      r == Err(ValidateEmailField(rules, email).error)
  {
    var u :- ValidateUsernameField(rules, username);
    var e :- ValidateEmailField(rules, email);
    Ok(SignUpData(u, e))
  }

  /**
   * Sign-up's cross-field check: a known username passes only with its own
   * email; an unknown one only with an email nobody has.
   */
  function SignUpValidate(users: map<Id, User>, username: string, email: string): (r: Result<SignUpData, ApiError>)
    requires UniqueUsernames(users)
    ensures r.Ok? <==> HasAccount(users, username, email) || (!HasUsername(users, username) && !HasEmail(users, email))
    ensures r.Ok? ==> r.value == SignUpData(username, email)
    ensures HasUsername(users, username) && !HasAccount(users, username, email) ==> r == Err(Invalid(UsernameTaken))
    ensures !HasUsername(users, username) && HasEmail(users, email) ==> r == Err(Invalid(EmailTaken))
  {
    AccountIffNameAndEmail(users, username, email);
    match UserByName(users, username)
    case Some(id) =>
      if email != users[id].email then Err(Invalid(UsernameTaken))
      else Ok(SignUpData(username, email))
    case None =>
      if HasEmail(users, email) then Err(Invalid(EmailTaken))
      else Ok(SignUpData(username, email))
  }

  /**
   * The user serializer's cross-field check: like sign-up's, except that an
   * already registered pair is refused with the status-200 duplicate error.
   */
  function UserValidate(users: map<Id, User>, username: string, email: string): (r: Result<SignUpData, ApiError>)
    requires UniqueUsernames(users)
    ensures r.Ok? <==> !HasUsername(users, username) && !HasEmail(users, email)
    ensures r.Ok? ==> r.value == SignUpData(username, email)
    ensures r == Err(DuplicateNotError) <==> HasAccount(users, username, email)
    ensures HasUsername(users, username) && !HasAccount(users, username, email) ==> r == Err(Invalid(UsernameTaken))
    ensures !HasUsername(users, username) && HasEmail(users, email) ==> r == Err(Invalid(EmailTaken))
  {
    AccountIffNameAndEmail(users, username, email);
    match UserByName(users, username)
    case Some(id) =>
      var userMail := users[id].email;
      if userMail == email then Err(DuplicateNotError)
      else Err(Invalid(UsernameTaken))
    case None =>
      if HasEmail(users, email) then Err(Invalid(EmailTaken))
      else Ok(SignUpData(username, email))
  }

  /**
   * The two cross-field checks differ on exactly one case: a registered
   * pair passes sign-up and is a duplicate for the user serializer.
   */
  lemma SignUpAndUserValidateDiffer(users: map<Id, User>, username: string, email: string)
    requires UniqueUsernames(users)
    ensures HasAccount(users, username, email) ==>
      SignUpValidate(users, username, email).Ok? && UserValidate(users, username, email) == Err(DuplicateNotError)
    ensures !HasAccount(users, username, email) ==>
      SignUpValidate(users, username, email) == UserValidate(users, username, email)
  {
  }

  // ---------------------------------------------------------------------------
  // Token

  /**
   * The token request check. The username field is checked first and an
   * unknown name aborts with 404 at once; then the code field; then the
   * stored code must equal the submitted one exactly.
   */
  function GetTokenValidate(rules: FieldRules, users: map<Id, User>, username: string, code: string)
    : (r: Result<TokenRequest, ApiError>)
    requires UniqueUsernames(users)
    ensures r.Ok? ==> r.value == TokenRequest(username, code)
    ensures |username| > rules.maxUsername ==> r == Err(Invalid(TooLong(UsernameField)))
    ensures |username| <= rules.maxUsername && !HasUsername(users, username) ==> r == Err(NotFound)
    ensures |username| <= rules.maxUsername && HasUsername(users, username) && |code| > rules.maxCode ==> r == Err(Invalid(TooLong(CodeField)))
    ensures r.Err? && r.error != NotFound ==> r.error.Invalid?
    ensures r.Ok? <==>
      |username| <= rules.maxUsername && |code| <= rules.maxCode &&
      exists id :: id in users && users[id].username == username && users[id].confirmationCode == Some(code)
  {
    if |username| > rules.maxUsername then Err(Invalid(TooLong(UsernameField)))
    else if !HasUsername(users, username) then Err(NotFound)
    else if |code| > rules.maxCode then Err(Invalid(TooLong(CodeField)))
    else
      var id := UserByName(users, username).value;
      if users[id].confirmationCode != Some(code) then Err(Invalid(BadCode))
      else Ok(TokenRequest(username, code))
  }

  /** A user whose code column is null never gets past the token check. */
  lemma NullCodeNeverPasses(rules: FieldRules, users: map<Id, User>, username: string, code: string)
    requires UniqueUsernames(users)
    requires forall id :: id in users && users[id].username == username ==> users[id].confirmationCode == None
    ensures GetTokenValidate(rules, users, username, code).Err?
  {
  }

  /** For a known user within the length limits, a wrong code is a validation error, not a 404. */
  lemma WrongCodeIsBadCode(rules: FieldRules, users: map<Id, User>, id: Id, code: string)
    requires UniqueUsernames(users)
    requires id in users && users[id].confirmationCode != Some(code)
    requires |users[id].username| <= rules.maxUsername && |code| <= rules.maxCode
    ensures GetTokenValidate(rules, users, users[id].username, code) == Err(Invalid(BadCode))
  {
    assert UserByName(users, users[id].username) == Some(id);
  }

  // ---------------------------------------------------------------------------
  // Review

  /** One review per author and title, checked on creation only. */
  function ReviewValidate(reviews: map<Id, Review>, verb: Method, author: Id, title: Id): (r: Result<(), ApiError>)
    ensures r.Err? <==> verb == Post && ReviewExists(reviews, author, title)
    ensures r.Err? ==> r.error == Invalid(DuplicateReview)
  {
    if verb != Post then Ok(())
    else if ReviewExists(reviews, author, title) then Err(Invalid(DuplicateReview))
    else Ok(())
  }
}
