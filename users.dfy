/**
 * The custom user model: the role names, the role field's width and
 * default, and the two role predicates.
 */
module Users {
  import opened Wrappers

  type Id = nat

  const AdminRole := "admin"
  const UserRole := "user"
  const ModeratorRole := "moderator"

  /** The allowed role values, in the order the model declares them. */
  const Choices: seq<string> := [UserRole, ModeratorRole, AdminRole]

  /** A user row. `confirmationCode` is a nullable column. */
  datatype User = User(
    username: string,
    email: string,
    firstName: string,
    lastName: string,
    bio: string,
    role: string,
    isSuperuser: bool,
    confirmationCode: Option<string>)

  /** The username column is unique. */
  ghost predicate UniqueUsernames(users: map<Id, User>)
  {
    forall a, b :: a in users && b in users && users[a].username == users[b].username ==> a == b
  }

  /** `filter(username=name).exists()` */
  predicate HasUsername(users: map<Id, User>, name: string)
  {
    exists id :: id in users && users[id].username == name
  }

  /** `filter(email=email).exists()` */
  predicate HasEmail(users: map<Id, User>, email: string)
  {
    exists id :: id in users && users[id].email == email
  }

  /** `filter(username=name, email=email).exists()` */
  predicate HasAccount(users: map<Id, User>, name: string, email: string)
  {
    exists id :: id in users && users[id].username == name && users[id].email == email
  }

  /** `filter(username=name).first()`, as a key: the username column is unique, so there is at most one. */
  function UserByName(users: map<Id, User>, name: string): (r: Option<Id>)
    requires UniqueUsernames(users)
    ensures r.Some? <==> HasUsername(users, name)
    ensures r.Some? ==> r.value in users && users[r.value].username == name
  {
    if HasUsername(users, name) then
      var id :| id in users && users[id].username == name;
      Some(id)
    else None
  }

  /** A user found by name has the submitted email exactly when the pair is registered. */
  lemma AccountIffNameAndEmail(users: map<Id, User>, name: string, email: string)
    requires UniqueUsernames(users)
    ensures HasAccount(users, name, email) <==>
      UserByName(users, name).Some? && users[UserByName(users, name).value].email == email
  {
    if HasAccount(users, name, email) {
      var id :| id in users && users[id].username == name && users[id].email == email;
      assert UserByName(users, name) == Some(id);
    }
  }

  /** The longest string length in a non-empty sequence (Python's `max` over `len`). */
  function MaxLength(names: seq<string>): (m: nat)
    requires names != []
    ensures forall i :: 0 <= i < |names| ==> |names[i]| <= m
    ensures exists i :: 0 <= i < |names| && |names[i]| == m
  {
    if |names| == 1 then |names[0]|
    else
      var rest := MaxLength(names[1..]);
      if |names[0]| >= rest then |names[0]| else rest
  }

  /** Width of the role column: the longest choice. */
  const RoleMaxLength: nat := MaxLength(Choices)

  lemma RoleMaxLengthIsModerator()
    ensures RoleMaxLength == |ModeratorRole| == 9
    ensures forall r :: r in Choices ==> |r| <= RoleMaxLength
  {
    assert |Choices[1]| == 9;
    assert |Choices[0]| == 4 && |Choices[2]| == 5;
  }

  /** `is_admin`: the superuser flag makes any role an admin. */
  predicate IsAdmin(u: User)
    ensures u.isSuperuser ==> IsAdmin(u)
    ensures !u.isSuperuser ==> (IsAdmin(u) <==> u.role == AdminRole)
  {
    u.role == AdminRole || u.isSuperuser
  }

  /** `is_moderator`: decided by the role alone, whatever the superuser flag. */
  predicate IsModerator(u: User)
    ensures IsModerator(u) ==> u.role in Choices && u.role != AdminRole
    ensures IsModerator(u) && !u.isSuperuser ==> !IsAdmin(u)
  {
    u.role == ModeratorRole
  }

  /** The row created by sign-up: every other column takes its default. */
  function NewUser(username: string, email: string, code: Option<string>): (u: User)
    ensures u.username == username && u.email == email && u.confirmationCode == code
    ensures u.role == UserRole && u.role in Choices && !u.isSuperuser
    ensures !IsAdmin(u) && !IsModerator(u)
  {
    User(username, email, "", "", "", UserRole, false, code)
  }

  /**
   * How the two role predicates combine: without the superuser flag a user
   * is exactly one of admin, moderator or plain user; the flag makes any
   * role an admin and never a moderator.
   */
  lemma RolePredicates(u: User)
    requires u.role in Choices
    ensures !u.isSuperuser ==> !(IsAdmin(u) && IsModerator(u))
    ensures !u.isSuperuser ==> (IsAdmin(u) || IsModerator(u) || u.role == UserRole)
    ensures u.isSuperuser ==> IsAdmin(u)
    ensures u.role == UserRole && u.isSuperuser ==> IsAdmin(u) && !IsModerator(u)
    ensures IsModerator(u.(isSuperuser := !u.isSuperuser)) == IsModerator(u)
  {
  }
}
