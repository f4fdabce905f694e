/** The user side of the authentication service: a store of user accounts,
    the existence query and lookup by username that sign-in uses, and the
    creation of an account from a sign-up form. */
module UserServices {
  import opened Wrappers

  /** A stored account. `username` is the e-mail address; `password` holds
      the encoder's output, never the raw password; `companyName` is Java
      null (`None`) unless one was set. */
  datatype UserEntity = UserEntity(
    id: nat,
    username: string,
    password: string,
    firstName: string,
    lastName: string,
    isRecruiter: bool,
    companyName: Option<string>)

  /** `UsernameNotFoundException` with its message. */
  datatype UsernameNotFound = UsernameNotFound(message: string)

  /** The message `loadUserByUsername` raises for an unknown username. */
  function NotFoundMessage(username: string): (msg: string)
    ensures |msg| == |username| + 31
    ensures msg[19..19 + |username|] == username
  {
    "User of string-id:`" + username + "` not found."
  }

  /** `findByUsername`: the position of the first account with that
      username, if any. */
  function FindByUsername(users: seq<UserEntity>, username: string): (i: Option<nat>)
    ensures i.Some? ==> i.value < |users| && users[i.value].username == username
    ensures i.Some? ==> forall j :: 0 <= j < i.value ==> users[j].username != username
    ensures i.None? <==> forall u :: u in users ==> u.username != username
    decreases |users|
  {
    if users == [] then None
    else if users[0].username == username then Some(0)
    else
      var rest := FindByUsername(users[1..], username);
      assert forall u :: u in users ==> u == users[0] || u in users[1..];
      if rest.Some? then Some(rest.value + 1) else None
  }

  /** Account ids are distinct and below the id the next `save` assigns. */
  ghost predicate IdsFresh(users: seq<UserEntity>, nextId: nat)
  {
    && (forall i :: 0 <= i < |users| ==> users[i].id < nextId)
    && (forall i, j :: 0 <= i < j < |users| ==> users[i].id != users[j].id)
  }

  /** Appending an account with the next id keeps the ids fresh. */
  lemma AppendFresh(users: seq<UserEntity>, nextId: nat, user: UserEntity)
    requires IdsFresh(users, nextId) && user.id == nextId
    ensures IdsFresh(users + [user], nextId + 1)
  {
  }

  /** ModifiedUserServices over an in-memory user repository. The BCrypt
      encoder is a function of the raw password and of the random salt it
      draws, which the caller passes in. */
  class ModifiedUserServices {
    /** The user repository's accounts, in table order. */
    var users: seq<UserEntity>
    /** The id the repository gives the next new account. */
    var nextId: nat
    /** BCrypt's `encode`: raw password and salt to the stored hash. */
    const encode: (string, nat) -> string

    ghost predicate Valid()
      reads this
    {
      IdsFresh(users, nextId)
    }

    constructor (encode: (string, nat) -> string)
      ensures Valid()
      ensures users == [] && this.encode == encode
    {
      users := [];
      nextId := 1;
      this.encode := encode;
    }

    /** `hashPassword`: one salted encoding of the raw password. */
    function HashPassword(rawPassword: string, salt: nat): string
    {
      encode(rawPassword, salt)
    }

    /** `userExists`: some stored account has that username. */
    function UserExists(email: string): (b: bool)
      reads this
      ensures b <==> exists u :: u in users && u.username == email
    {
      FindByUsername(users, email).Some?
    }

    /** `loadUserByUsername`: the first account with that username, or the
        not-found error naming it. */
    function LoadUserByUsername(username: string): (r: Result<UserEntity, UsernameNotFound>)
      reads this
      ensures r.Ok? ==> r.value in users && r.value.username == username
      ensures r.Ok? ==> exists i :: 0 <= i < |users| && users[i] == r.value &&
                                    (forall j :: 0 <= j < i ==> users[j].username != username)
      ensures r.Err? <==> !UserExists(username)
      ensures r.Err? ==> r.error.message == NotFoundMessage(username)
    {
      var i := FindByUsername(users, username);
      if i.Some? then Ok(users[i.value]) else Err(UsernameNotFound(NotFoundMessage(username)))
    }

    /** `createUser`: builds the account field by field and saves it. The
        recruiter flag is the negation of `isApplicant`, and the company
        name is stored for recruiters only. The username is not checked
        for uniqueness here. */
    method CreateUser(email: string, password: string, firstName: string, lastName: string,
                      isApplicant: bool, companyName: Option<string>, salt: nat)
      returns (user: UserEntity)
      requires Valid()
      modifies this
      ensures Valid()
      ensures users == old(users) + [user] && nextId == old(nextId) + 1
      ensures user.id == old(nextId)
      ensures forall u :: u in old(users) ==> u.id != user.id
      ensures user.username == email && user.firstName == firstName && user.lastName == lastName
      ensures user.password == HashPassword(password, salt)
      ensures user.isRecruiter == !isApplicant
      ensures user.companyName == if isApplicant then None else companyName
      ensures UserExists(email)
      ensures !old(UserExists(email)) ==> LoadUserByUsername(email) == Ok(user)
    {
      var entity := UserEntity(0, "", "", "", "", false, None);
      entity := entity.(username := email);
      entity := entity.(password := HashPassword(password, salt));
      entity := entity.(firstName := firstName);
      entity := entity.(lastName := lastName);
      entity := entity.(isRecruiter := !isApplicant);
      if !isApplicant {
        entity := entity.(companyName := companyName);
      }
      user := entity.(id := nextId);
      AppendFresh(users, nextId, user);
      users := users + [user];
      nextId := nextId + 1;
      assert users[|users| - 1] == user;
    }
  }
}
