/**
 * The `User` and `Follow` schemas of backend/users/models.py, as values and as
 * the invariants their tables keep.
 */
module Users {
  import opened PyStr

  type UserId = int

  /** `max_length` of the email, first-name and last-name columns. */
  const MAX_LENGTH := 256

  /** `max_length` of the `username` column that `User` inherits from Django's `AbstractUser`. */
  const USERNAME_MAX_LENGTH := 150

  datatype User = User(username: string, email: string, firstName: string, lastName: string)

  /** A subscription of `user` to the recipes of `author`. */
  datatype Follow = Follow(user: UserId, author: UserId)

  /** Every declared column length is respected. */
  predicate FieldsFit(u: User) {
    && |u.username| <= USERNAME_MAX_LENGTH
    && |u.email| <= MAX_LENGTH && |u.firstName| <= MAX_LENGTH && |u.lastName| <= MAX_LENGTH
  }

  /** The user table: column lengths, unique email and unique username. */
  ghost predicate UsersValid(users: map<UserId, User>) {
    && (forall id :: id in users ==> FieldsFit(users[id]))
    && (forall a, b :: a in users && b in users && users[a].email == users[b].email ==> a == b)
    && (forall a, b :: a in users && b in users && users[a].username == users[b].username ==> a == b)
  }

  /**
   * The follow table: both ends exist. A set of pairs holds each (user, author)
   * pair at most once, which is the `unique_together` constraint; nothing
   * forbids `user == author`.
   */
  ghost predicate FollowsValid(follows: set<Follow>, userIds: set<UserId>) {
    forall f :: f in follows ==> f.user in userIds && f.author in userIds
  }

  /** `User.__str__`: first name, a space, last name. */
  function UserStr(u: User): string {
    u.firstName + " " + u.lastName
  }

  /** The string form names the user: when last names have no space it gives back both names. */
  lemma UserStrDeterminesNames(u: User, v: User)
    requires ' ' !in u.lastName && ' ' !in v.lastName
    requires UserStr(u) == UserStr(v)
    ensures u.firstName == v.firstName && u.lastName == v.lastName
  {
    CutAtLastMark(u.firstName, ' ', u.lastName, v.firstName, v.lastName);
  }
}
