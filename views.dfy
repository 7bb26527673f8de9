/**
 * The views: sign-up and token issue, the title serializer switch, slug
 * deletion for genres and categories, the user detail actions, and the
 * creation hooks of reviews and comments. Views that write take the
 * database object and change it in place.
 */
module Views {
  import opened Wrappers
  import opened Http
  import opened Users
  import opened Reviews
  import opened Store
  import opened Service
  import opened Serializers

  // ---------------------------------------------------------------------------
  // Sign-up

  /** The sign-up serializer as a whole: field checks, then the cross-field check. */
  function SignUpCheck(rules: FieldRules, users: map<Id, User>, username: string, email: string)
    : (r: Result<SignUpData, ApiError>)
    requires UniqueUsernames(users)
    ensures r.Ok? <==>
      SignUpFields(rules, username, email).Ok? && SignUpValidate(users, username, email).Ok?
    ensures r.Ok? ==> r.value == SignUpData(username, email)
    ensures r.Err? ==> r.error.Invalid?
    ensures SignUpFields(rules, username, email).Err? ==> r == Err(SignUpFields(rules, username, email).error)
    ensures SignUpFields(rules, username, email).Ok? ==> r == SignUpValidate(users, username, email)
    ensures (SignUpFields(rules, username, email).Ok? && HasUsername(users, username) &&
      !HasAccount(users, username, email)) ==> r == Err(Invalid(UsernameTaken))
    ensures (SignUpFields(rules, username, email).Ok? && !HasUsername(users, username) &&
      HasEmail(users, email)) ==> r == Err(Invalid(EmailTaken))
    ensures |username| <= rules.maxUsername && username == "me" ==> r == Err(Invalid(ReservedUsername))
  {
    var _ :- SignUpFields(rules, username, email);
    SignUpValidate(users, username, email)
  }

  /** The `get_or_create` lookup: the user with this username and this email. */
  function PairLookup(users: map<Id, User>, username: string, email: string): (r: Option<Id>)
    requires UniqueUsernames(users)
    ensures r.Some? <==> HasAccount(users, username, email)
    ensures r.Some? ==> r.value in users && users[r.value].username == username && users[r.value].email == email
  {
    if HasAccount(users, username, email) then
      var id :| id in users && users[id].username == username && users[id].email == email;
      Some(id)
    else None
  }

  /**
   * The users table after a successful sign-up: `get_or_create` on the pair,
   * creating the row under `freshId` with the code, or else storing the code
   * on the row it found.
   */
  function Upsert(users: map<Id, User>, freshId: Id, username: string, email: string, code: string)
    : (after: map<Id, User>)
    requires UniqueUsernames(users)
    ensures after.Keys == users.Keys + (if HasAccount(users, username, email) then {} else {freshId})
    ensures exists id :: (id in after && after[id].username == username && after[id].email == email &&
      after[id].confirmationCode == Some(code))
  {
    match PairLookup(users, username, email)
    case Some(id) => users[id := users[id].(confirmationCode := Some(code))]
    case None => users[freshId := NewUser(username, email, Some(code))]
  }

  /** Sign-up of a registered pair keeps the one row and changes nothing but its code. */
  lemma UpsertExisting(users: map<Id, User>, freshId: Id, username: string, email: string, code: string)
    requires UniqueUsernames(users)
    requires HasUsername(users, username)
    requires SignUpValidate(users, username, email).Ok?
    ensures exists id :: (id in users && users[id].username == username && users[id].email == email &&
      Upsert(users, freshId, username, email, code) == users[id := users[id].(confirmationCode := Some(code))])
    ensures Upsert(users, freshId, username, email, code).Keys == users.Keys
  {
    var id := PairLookup(users, username, email).value;
    assert Upsert(users, freshId, username, email, code) == users[id := users[id].(confirmationCode := Some(code))];
  }

  /** Sign-up of a new pair adds exactly one row, a plain user holding the code. */
  lemma UpsertNew(users: map<Id, User>, freshId: Id, username: string, email: string, code: string)
    requires UniqueUsernames(users)
    requires freshId !in users
    requires !HasUsername(users, username)
    ensures Upsert(users, freshId, username, email, code) == users[freshId := NewUser(username, email, Some(code))]
    ensures |Upsert(users, freshId, username, email, code)| == |users| + 1
  {
    assert !HasAccount(users, username, email);
  }

  /** After a sign-up the username is unique and held by exactly one row, which stores the new code. */
  lemma UpsertStoresCode(users: map<Id, User>, freshId: Id, username: string, email: string, code: string)
    requires UniqueUsernames(users) && freshId !in users
    requires SignUpValidate(users, username, email).Ok?
    ensures var after := Upsert(users, freshId, username, email, code);
      UniqueUsernames(after) &&
      HasAccount(after, username, email) &&
      forall id :: id in after && after[id].username == username ==>
        after[id].email == email && after[id].confirmationCode == Some(code)
  {
    var after := Upsert(users, freshId, username, email, code);
    if HasUsername(users, username) {
      var id := PairLookup(users, username, email).value;
      assert after == users[id := users[id].(confirmationCode := Some(code))];
      SetCodeKeepsUnique(users, id, code);
      forall k | k in after && after[k].username == username
        ensures after[k].email == email && after[k].confirmationCode == Some(code)
      {
        assert users[k].username == users[id].username;
      }
    } else {
      UpsertNew(users, freshId, username, email, code);
      AddNewNameKeepsUnique(users, freshId, NewUser(username, email, Some(code)));
    }
  }

  /** Storing a code on a row leaves the usernames, and so their uniqueness, alone. */
  lemma SetCodeKeepsUnique(users: map<Id, User>, id: Id, code: string)
    requires UniqueUsernames(users) && id in users
    ensures UniqueUsernames(users[id := users[id].(confirmationCode := Some(code))])
  {
    var after := users[id := users[id].(confirmationCode := Some(code))];
    forall a, b | a in after && b in after && after[a].username == after[b].username
      ensures a == b
    {
      assert after[a].username == users[a].username && after[b].username == users[b].username;
    }
  }

  /** A row under a fresh key with an unused username keeps usernames unique. */
  lemma AddNewNameKeepsUnique(users: map<Id, User>, freshId: Id, u: User)
    requires UniqueUsernames(users) && freshId !in users && !HasUsername(users, u.username)
    ensures UniqueUsernames(users[freshId := u])
  {
    var after := users[freshId := u];
    forall a, b | a in after && b in after && after[a].username == after[b].username
      ensures a == b
    {
      if a != freshId && b != freshId {
        assert after[a] == users[a] && after[b] == users[b];
      }
    }
  }

  /**
   * Sign-up leaves the rows of other usernames as they were, adds at most
   * the fresh key, and keeps every role among the choices.
   */
  lemma UpsertKeepsOthers(users: map<Id, User>, freshId: Id, username: string, email: string, code: string)
    requires UniqueUsernames(users) && freshId !in users
    requires SignUpValidate(users, username, email).Ok?
    ensures forall id :: id in users && users[id].username != username ==>
      id in Upsert(users, freshId, username, email, code) && Upsert(users, freshId, username, email, code)[id] == users[id]
    ensures forall id :: id in users && users[id].role in Choices ==>
      Upsert(users, freshId, username, email, code)[id].role in Choices
    ensures freshId in Upsert(users, freshId, username, email, code) ==>
      Upsert(users, freshId, username, email, code)[freshId].role in Choices
    ensures Upsert(users, freshId, username, email, code).Keys <= users.Keys + {freshId}
  {
    if HasUsername(users, username) {
      var id := PairLookup(users, username, email).value;
      assert Upsert(users, freshId, username, email, code) == users[id := users[id].(confirmationCode := Some(code))];
    } else {
      UpsertNew(users, freshId, username, email, code);
    }
  }

  /**
   * Signing up twice with the same pair succeeds both times; the second run
   * adds no row, and the stored code is the one generated last.
   */
  lemma SignUpIdempotent(
    rules: FieldRules, users: map<Id, User>, fresh1: Id, fresh2: Id,
    username: string, email: string, code1: string, code2: string)
    requires UniqueUsernames(users) && fresh1 !in users && fresh2 !in users && fresh1 != fresh2
    requires SignUpCheck(rules, users, username, email).Ok?
    ensures var once := Upsert(users, fresh1, username, email, code1);
      UniqueUsernames(once) &&
      SignUpCheck(rules, once, username, email).Ok? &&
      var twice := Upsert(once, fresh2, username, email, code2);
      twice.Keys == once.Keys &&
      forall id :: id in twice && twice[id].username == username ==> twice[id].confirmationCode == Some(code2)
  {
    var once := Upsert(users, fresh1, username, email, code1);
    UpsertStoresCode(users, fresh1, username, email, code1);
    UpsertKeepsOthers(users, fresh1, username, email, code1);
    assert HasAccount(once, username, email);
    assert SignUpValidate(once, username, email).Ok?;
    UpsertExisting(once, fresh2, username, email, code2);
    UpsertStoresCode(once, fresh2, username, email, code2);
  }

  /**
   * The sign-up view: validate, generate a code from the random picks, then
   * create the user or store the code on the existing one. The e-mail that
   * carries the code is not modelled.
   */
  method SignUp(db: Database, rules: FieldRules, username: string, email: string, picks: seq<nat>)
    returns (r: Result<SignUpData, ApiError>)
    requires db.Valid()
    requires ValidPicks(DefaultLength, DefaultAlphabet, picks)
    modifies db
    ensures db.Valid()
    ensures r == SignUpCheck(rules, old(db.users), username, email)
    ensures r.Ok? ==> (db.users ==
      Upsert(old(db.users), old(db.nextId), username, email, GeneratePassword(DefaultLength, DefaultAlphabet, picks)))
    ensures r.Err? ==> db.users == old(db.users)
    ensures db.genres == old(db.genres) && db.categories == old(db.categories) && db.titles == old(db.titles)
    ensures db.genreTitles == old(db.genreTitles) && db.reviews == old(db.reviews) && db.comments == old(db.comments)
  {
    r := SignUpCheck(rules, db.users, username, email);
    if r.Err? {
      return;
    }
    var code := GeneratePassword(DefaultLength, DefaultAlphabet, picks);
    ghost var before := db.users;
    UpsertStoresCode(db.users, db.nextId, username, email, code);
    UpsertKeepsOthers(db.users, db.nextId, username, email, code);
    var found := PairLookup(db.users, username, email);
    if found.None? {
      assert !HasUsername(db.users, username);
      var id := db.CreateUser(NewUser(username, email, Some(code)));
    } else {
      var id := found.value;
      db.SaveUser(id, db.users[id].(confirmationCode := Some(code)));
    }
    assert db.users == Upsert(before, old(db.nextId), username, email, code);
  }

  // ---------------------------------------------------------------------------
  // Token

  /** An access token, bound to the user it was issued for; its signing is not modelled. */
  datatype Token = AccessToken(user: Id)

  /** The token view: validate, then issue a token for the user with that username. */
  function GetToken(rules: FieldRules, users: map<Id, User>, username: string, code: string)
    : (r: Result<Token, ApiError>)
    requires UniqueUsernames(users)
    ensures r.Ok? <==> GetTokenValidate(rules, users, username, code).Ok?
    ensures r.Ok? ==> r.value.user in users && users[r.value.user].username == username
    ensures r.Ok? ==> users[r.value.user].confirmationCode == Some(code)
    ensures r.Err? ==> r.error == GetTokenValidate(rules, users, username, code).error
  {
    var data :- GetTokenValidate(rules, users, username, code);
    var id := UserByName(users, data.username).value;
    Ok(AccessToken(id))
  }

  /**
   * After a sign-up stored `code`, a token request for that username gets a
   * token exactly when it submits that code; any earlier code is refused.
   */
  lemma TokenAfterSignUp(
    rules: FieldRules, users: map<Id, User>, freshId: Id,
    username: string, email: string, code: string, submitted: string)
    requires UniqueUsernames(users) && freshId !in users
    requires SignUpValidate(users, username, email).Ok?
    requires |username| <= rules.maxUsername && |submitted| <= rules.maxCode
    ensures var after := Upsert(users, freshId, username, email, code);
      UniqueUsernames(after) &&
      (GetToken(rules, after, username, submitted).Ok? <==> submitted == code) &&
      (submitted != code ==> GetToken(rules, after, username, submitted) == Err(Invalid(BadCode)))
  {
    var after := Upsert(users, freshId, username, email, code);
    UpsertStoresCode(users, freshId, username, email, code);
    var id := PairLookup(after, username, email).value;
    if submitted != code {
      WrongCodeIsBadCode(rules, after, id, submitted);
    }
  }

  // ---------------------------------------------------------------------------
  // Titles

  datatype TitleSerializerKind = ReadSerializer | CreateSerializer

  /** The title view reads with the display serializer and writes with the create serializer. */
  function SerializerFor(action: string): (k: TitleSerializerKind)
    ensures k == ReadSerializer <==> action == "list" || action == "retrieve"
  {
    if action in ["list", "retrieve"] then ReadSerializer else CreateSerializer
  }

  // ---------------------------------------------------------------------------
  // Genre and category deletion by slug

  /** Deletes the genre with this slug (404 when there is none) and its title links. */
  method DestroyGenre(db: Database, slug: string) returns (status: int)
    requires db.Valid()
    modifies db
    ensures db.Valid()
    ensures status == HttpNotFound || status == HttpNoContent
    ensures status == HttpNotFound <==> !GenreSlugExists(old(db.genres), slug)
    ensures status == HttpNotFound ==> unchanged(db)
    ensures status == HttpNoContent ==> exists g :: (g in old(db.genres) && old(db.genres)[g].slug == slug &&
      db.genres == old(db.genres) - {g} && db.genreTitles == LinksNotOf(old(db.genreTitles), g))
    ensures db.users == old(db.users) && db.titles == old(db.titles) && db.reviews == old(db.reviews)
    ensures db.categories == old(db.categories) && db.comments == old(db.comments)
  {
    if !GenreSlugExists(db.genres, slug) {
      return HttpNotFound;
    }
    var g :| g in db.genres && db.genres[g].slug == slug;
    ghost var links := db.genreTitles;
    db.DeleteGenre(g);
    assert db.genreTitles == LinksNotOf(links, g);
    status := HttpNoContent;
  }

  /** Deletes the category with this slug (404 when there is none); its titles lose their category. */
  method DestroyCategory(db: Database, slug: string) returns (status: int)
    requires db.Valid()
    modifies db
    ensures db.Valid()
    ensures status == HttpNotFound || status == HttpNoContent
    ensures status == HttpNotFound <==> !CategorySlugExists(old(db.categories), slug)
    ensures status == HttpNotFound ==> unchanged(db)
    ensures status == HttpNoContent ==> exists c :: (c in old(db.categories) && old(db.categories)[c].slug == slug &&
      db.categories == old(db.categories) - {c} && db.titles == Uncategorize(old(db.titles), c))
    ensures db.users == old(db.users) && db.genres == old(db.genres) && db.genreTitles == old(db.genreTitles)
    ensures db.reviews == old(db.reviews) && db.comments == old(db.comments)
  {
    if !CategorySlugExists(db.categories, slug) {
      return HttpNotFound;
    }
    var c :| c in db.categories && db.categories[c].slug == slug;
    ghost var titles := db.titles;
    db.DeleteCategory(c);
    assert db.titles == Uncategorize(titles, c);
    status := HttpNoContent;
  }

  // ---------------------------------------------------------------------------
  // User detail actions

  /** The fields a PATCH may carry; an absent field keeps its value. */
  datatype UserPatch = UserPatch(
    username: Option<string>,
    email: Option<string>,
    firstName: Option<string>,
    lastName: Option<string>,
    bio: Option<string>,
    role: Option<string>)

  function OrElse(v: Option<string>, current: string): string
  {
    if v.Some? then v.value else current
  }

  /** A user other than `id` has this username. */
  predicate UsernameHeldByOther(users: map<Id, User>, id: Id, name: string)
  {
    exists k :: k in users && k != id && users[k].username == name
  }

  /**
   * The row a partial update produces. A new username must not belong to
   * another user; a role, when it may be written, must be one of the choices.
   */
  function ApplyPatch(users: map<Id, User>, id: Id, p: UserPatch, roleWritable: bool): (r: Result<User, ApiError>)
    requires id in users
    ensures r.Ok? ==>
      r.value.username == OrElse(p.username, users[id].username) &&
      r.value.email == OrElse(p.email, users[id].email) &&
      r.value.firstName == OrElse(p.firstName, users[id].firstName) &&
      r.value.lastName == OrElse(p.lastName, users[id].lastName) &&
      r.value.bio == OrElse(p.bio, users[id].bio) &&
      r.value.isSuperuser == users[id].isSuperuser &&
      r.value.confirmationCode == users[id].confirmationCode
    ensures r.Ok? ==> r.value.role == if roleWritable && p.role.Some? then p.role.value else users[id].role
    ensures r.Ok? ==> forall k :: k in users && k != id ==> users[k].username != r.value.username
    ensures r.Ok? && users[id].role in Choices ==> r.value.role in Choices
    ensures r == Err(Invalid(UsernameTaken)) <==> UsernameHeldByOther(users, id, OrElse(p.username, users[id].username))
    ensures r == Err(Invalid(InvalidRoleChoice)) <==>
      !UsernameHeldByOther(users, id, OrElse(p.username, users[id].username)) &&
      roleWritable && p.role.Some? && p.role.value !in Choices
    ensures r.Ok? <==>
      !UsernameHeldByOther(users, id, OrElse(p.username, users[id].username)) &&
      !(roleWritable && p.role.Some? && p.role.value !in Choices)
  {
    var u := users[id];
    var name := OrElse(p.username, u.username);
    if UsernameHeldByOther(users, id, name) then Err(Invalid(UsernameTaken))
    else if roleWritable && p.role.Some? && p.role.value !in Choices then Err(Invalid(InvalidRoleChoice))
    else
      Ok(u.(username := name,
            email := OrElse(p.email, u.email),
            firstName := OrElse(p.firstName, u.firstName),
            lastName := OrElse(p.lastName, u.lastName),
            bio := OrElse(p.bio, u.bio),
            role := if roleWritable && p.role.Some? then p.role.value else u.role))
  }

  /** `get_object_or_404` on the username. */
  function RetrieveByUsername(users: map<Id, User>, username: string): (r: Result<Id, ApiError>)
    requires UniqueUsernames(users)
    ensures r.Err? <==> !HasUsername(users, username)
    ensures r.Err? ==> r.error == NotFound
    ensures r.Ok? ==> r.value in users && users[r.value].username == username
  {
    match UserByName(users, username)
    case Some(id) => Ok(id)
    case None => Err(NotFound)
  }

  /** PATCH on a username: looks the user up (404), then updates that user, role included. */
  method PatchByUsername(db: Database, username: string, p: UserPatch) returns (r: Result<User, ApiError>)
    requires db.Valid()
    modifies db
    ensures db.Valid()
    ensures !HasUsername(old(db.users), username) ==> r == Err(NotFound)
    ensures HasUsername(old(db.users), username) ==>
      r == ApplyPatch(old(db.users), UserByName(old(db.users), username).value, p, true)
    ensures r.Ok? ==> exists id :: (id in old(db.users) && old(db.users)[id].username == username &&
      ApplyPatch(old(db.users), id, p, true) == Ok(r.value) && db.users == old(db.users)[id := r.value])
    ensures r.Err? ==> db.users == old(db.users)
    ensures db.genres == old(db.genres) && db.categories == old(db.categories) && db.titles == old(db.titles)
    ensures db.genreTitles == old(db.genreTitles) && db.reviews == old(db.reviews) && db.comments == old(db.comments)
  {
    var found := RetrieveByUsername(db.users, username);
    if found.Err? {
      return Err(found.error);
    }
    var id := found.value;
    r := ApplyPatch(db.users, id, p, true);
    if r.Ok? {
      db.SaveUser(id, r.value);
    }
  }

  /** PATCH on `me`: updates the requesting user; the role is read-only there and ignored. */
  method PatchMe(db: Database, requester: Id, p: UserPatch) returns (r: Result<User, ApiError>)
    requires db.Valid() && requester in db.users
    modifies db
    ensures db.Valid()
    ensures r == ApplyPatch(old(db.users), requester, p, false)
    ensures r.Ok? ==> r.value.role == old(db.users)[requester].role
    ensures r.Ok? ==> db.users == old(db.users)[requester := r.value]
    ensures r.Err? ==> db.users == old(db.users)
    ensures db.genres == old(db.genres) && db.categories == old(db.categories) && db.titles == old(db.titles)
    ensures db.genreTitles == old(db.genreTitles) && db.reviews == old(db.reviews) && db.comments == old(db.comments)
  {
    r := ApplyPatch(db.users, requester, p, false);
    if r.Ok? {
      db.SaveUser(requester, r.value);
    }
  }

  /** Which user DELETE on a username removes, as the view is written: the requester. */
  function DeleteTargetAsWritten(users: map<Id, User>, requester: Id, username: string): (r: Result<Id, ApiError>)
    requires UniqueUsernames(users)
    ensures r.Err? <==> !HasUsername(users, username)
    ensures r.Ok? ==> r.value == requester
  {
    var _ :- RetrieveByUsername(users, username);
    Ok(requester)
  }

  /**
   * An administrator (key 1) deleting user "bob" (key 2) as written removes
   * the administrator and leaves bob in place.
   */
  lemma DeleteAsWrittenRemovesRequester()
    ensures var admin := User("root", "root@example.com", "", "", "", AdminRole, false, None);
      var bob := User("bob", "bob@example.com", "", "", "", UserRole, false, None);
      var users := map[1 := admin, 2 := bob];
      UniqueUsernames(users) &&
      DeleteTargetAsWritten(users, 1, "bob") == Ok(1) &&
      RetrieveByUsername(users, "bob") == Ok(2)
  {
    var admin := User("root", "root@example.com", "", "", "", AdminRole, false, None);
    var bob := User("bob", "bob@example.com", "", "", "", UserRole, false, None);
    var users := map[1 := admin, 2 := bob];
    assert users[2].username == "bob";
    assert HasUsername(users, "bob");
    var t := RetrieveByUsername(users, "bob");
    assert t.Ok? && t.value in users && users[t.value].username == "bob";
    assert users[1].username != "bob";
  }

  /** DELETE on a username, as written: 404 for an unknown name, otherwise the requester is deleted. */
  method DeleteByUsernameAsWritten(db: Database, requester: Id, username: string) returns (status: int)
    requires db.Valid()
    modifies db
    ensures db.Valid()
    ensures status == HttpNotFound <==> !HasUsername(old(db.users), username)
    ensures status == HttpNotFound ==> unchanged(db)
    ensures status == HttpNoContent ==> db.users == old(db.users) - {requester}
    ensures status == HttpNoContent ==> db.reviews == ReviewsNotBy(old(db.reviews), requester)
    ensures status == HttpNoContent ==> db.comments == CommentsOn(CommentsNotBy(old(db.comments), requester), db.reviews)
    ensures db.genres == old(db.genres) && db.categories == old(db.categories)
    ensures db.titles == old(db.titles) && db.genreTitles == old(db.genreTitles)
    ensures status == HttpNotFound || status == HttpNoContent
  {
    var target := DeleteTargetAsWritten(db.users, requester, username);
    if target.Err? {
      return HttpNotFound;
    }
    db.DeleteUser(target.value);
    status := HttpNoContent;
  }

  /** DELETE on a username: 404 for an unknown name, otherwise that user and what cascades from it go. */
  method DeleteByUsername(db: Database, username: string) returns (status: int)
    requires db.Valid()
    modifies db
    ensures db.Valid()
    ensures status == HttpNotFound <==> !HasUsername(old(db.users), username)
    ensures status == HttpNotFound ==> unchanged(db)
    ensures status == HttpNoContent ==> exists id :: (id in old(db.users) && old(db.users)[id].username == username &&
      db.users == old(db.users) - {id} &&
      db.reviews == ReviewsNotBy(old(db.reviews), id) &&
      db.comments == CommentsOn(CommentsNotBy(old(db.comments), id), db.reviews))
    ensures status == HttpNoContent ==> !HasUsername(db.users, username)
    ensures db.genres == old(db.genres) && db.categories == old(db.categories)
    ensures db.titles == old(db.titles) && db.genreTitles == old(db.genreTitles)
    ensures status == HttpNotFound || status == HttpNoContent
  {
    var target := RetrieveByUsername(db.users, username);
    if target.Err? {
      return HttpNotFound;
    }
    db.DeleteUser(target.value);
    status := HttpNoContent;
  }

  // ---------------------------------------------------------------------------
  // Reviews and comments

  /**
   * Review creation by an authenticated user on the title in the URL: the
   * score field, then one review per author and title, then the title
   * lookup (404), then the insert with the requester as author.
   */
  method CreateReview(db: Database, requester: Id, titleId: Id, text: string, score: int)
    returns (r: Result<Id, ApiError>)
    requires db.Valid() && requester in db.users
    modifies db
    ensures db.Valid()
    ensures !ScoreInRange(score) ==> r == Err(Invalid(ScoreOutOfRange))
    ensures ScoreInRange(score) && ReviewExists(old(db.reviews), requester, titleId) ==>
      r == Err(Invalid(DuplicateReview))
    ensures ScoreInRange(score) && !ReviewExists(old(db.reviews), requester, titleId) && titleId !in old(db.titles) ==>
      r == Err(NotFound)
    ensures r.Ok? <==>
      ScoreInRange(score) && !ReviewExists(old(db.reviews), requester, titleId) && titleId in old(db.titles)
    ensures r.Ok? ==> (r.value !in old(db.reviews) &&
      db.reviews == old(db.reviews)[r.value := Review(text, requester, score, titleId)])
    ensures r.Err? ==> unchanged(db)
    ensures db.users == old(db.users) && db.titles == old(db.titles) && db.comments == old(db.comments)
    ensures db.genres == old(db.genres) && db.categories == old(db.categories) && db.genreTitles == old(db.genreTitles)
  {
    var checked := ValidateScore(score);
    if checked.Err? {
      return Err(checked.error);
    }
    var unique := ReviewValidate(db.reviews, Post, requester, titleId);
    if unique.Err? {
      return Err(unique.error);
    }
    if titleId !in db.titles {
      return Err(NotFound);
    }
    var id := db.CreateReview(Review(text, requester, score, titleId));
    r := Ok(id);
  }

  /**
   * Comment creation by an authenticated user on the review in the URL. The
   * review is looked up by its key alone (404): the title in the URL plays
   * no part.
   */
  method CreateComment(db: Database, requester: Id, titleId: Id, reviewId: Id, text: string)
    returns (r: Result<Id, ApiError>)
    requires db.Valid() && requester in db.users
    modifies db
    ensures db.Valid()
    ensures r.Ok? <==> reviewId in old(db.reviews)
    ensures r.Err? ==> r.error == NotFound && unchanged(db)
    ensures r.Ok? ==> (r.value !in old(db.comments) &&
      db.comments == old(db.comments)[r.value := Comment(text, requester, reviewId)])
    ensures db.users == old(db.users) && db.titles == old(db.titles) && db.reviews == old(db.reviews)
    ensures db.genres == old(db.genres) && db.categories == old(db.categories) && db.genreTitles == old(db.genreTitles)
  {
    if reviewId !in db.reviews {
      return Err(NotFound);
    }
    var id := db.CreateComment(Comment(text, requester, reviewId));
    r := Ok(id);
  }
}
