/**
 * `AuthService`: registration, login and the lookup the authentication middleware makes.
 * Hashing, password verification and token signing are parameters of the operations that use them.
 */
module AuthService {
  import opened Wrappers
  import opened Errors
  import opened ArticleMapper
  import opened Store

  datatype CreateUserDto = CreateUserDto(email: string, username: string, password: string)

  datatype LoginUserDto = LoginUserDto(email: string, password: string)

  datatype JwtPayload = JwtPayload(email: string, userId: UserId)

  /** The login response: the user row without `password`, plus the token. */
  datatype LoginData = LoginData(
    token: string, id: UserId, email: string, username: string,
    bio: Option<string>, image: Option<string>, createdAt: Time, updatedAt: Option<Time>)

  /** The user the authentication middleware attaches to the request. */
  datatype UserRequestData = UserRequestData(id: UserId, email: string)

  /** Some user already has this user name or this e-mail. */
  ghost predicate Taken(db: Database, username: string, email: string)
    reads db
  {
    exists id :: id in db.users && (db.users[id].username == username || db.users[id].email == email)
  }

  /** `create`: refuse a user name or e-mail already in use, else store the user with the hashed password. */
  method Create(db: Database, createUser: CreateUserDto, encodePassword: string -> string, now: Time)
    returns (r: Result<UserRecord, Error>)
    requires db.Valid()
    modifies db
    ensures db.Valid()
    ensures db.articles == old(db.articles) && db.comments == old(db.comments) && db.tags == old(db.tags)
    ensures r.Failure? <==> old(Taken(db, createUser.username, createUser.email))
    ensures r.Failure? ==> r.error == HttpException(BAD_REQUEST, "Username and email must be unique!") && unchanged(db)
    ensures r.Success? ==>
      var id := old(db.nextUserId);
      && id !in old(db.users)
      && db.users == old(db.users)[id := User(createUser.email, createUser.username, encodePassword(createUser.password),
                                              None, None, now, None, [])]
      && r.value == RecordOf(id, db.users[id])
  {
    var users := db.UserIdsWithUsernameOrEmail(createUser.username, createUser.email);
    if |users| > 0 {
      assert users[0] in users;
      return Failure(HttpException(BAD_REQUEST, "Username and email must be unique!"));
    }
    var id := db.InsertUser(User(createUser.email, createUser.username, encodePassword(createUser.password),
                                 None, None, now, None, []));
    r := Success(RecordOf(id, db.users[id]));
  }

  /** No user has this e-mail. */
  ghost predicate UnknownEmail(db: Database, email: string)
    reads db
  {
    forall id :: id in db.users ==> db.users[id].email != email
  }

  /** `login`: find the user by e-mail, check the password against the stored hash, sign `{ email, userId }`. */
  function Login(db: Database, body: LoginUserDto, verifyPassword: (string, string) -> bool,
                 encodeJwtToken: JwtPayload -> string): (r: Result<LoginData, Error>)
    requires db.Valid()
    reads db
    ensures UnknownEmail(db, body.email) ==> r == Failure(EntityNotFound())
    ensures !UnknownEmail(db, body.email) ==>
      var id := db.UserIdOfEmail(body.email).value;
      var u := db.users[id];
      && (r.Success? <==> verifyPassword(body.password, u.password))
      && (r.Failure? ==> r.error == HttpException(UNAUTHORIZED, "Invalid password!"))
      && (r.Success? ==>
            && r.value.token == encodeJwtToken(JwtPayload(body.email, id))
            && r.value.id == id && r.value.email == body.email && r.value.username == u.username
            && r.value.bio == u.bio && r.value.image == u.image
            && r.value.createdAt == u.createdAt && r.value.updatedAt == u.updatedAt)
  {
    match db.UserIdOfEmail(body.email)
    case None => Failure(EntityNotFound())
    case Some(id) =>
      var user := db.users[id];
      if !verifyPassword(body.password, user.password) then
        Failure(HttpException(UNAUTHORIZED, "Invalid password!"))
      else
        var token := encodeJwtToken(JwtPayload(user.email, id));
        Success(LoginData(token, id, user.email, user.username, user.bio, user.image, user.createdAt, user.updatedAt))
  }

  /** `getUserRequestData`: `{ id, email }` of the user; with `rejectOnNotFound: false` a miss reads a property of `null`. */
  function GetUserRequestData(db: Database, id: UserId): (r: Result<UserRequestData, Error>)
    reads db
    ensures r.Success? <==> id in db.users
    ensures r.Success? ==> r.value.id == id && r.value.email == db.users[id].email
    ensures r.Failure? ==> r.error.TypeError?
  {
    if id in db.users then Success(UserRequestData(id, db.users[id].email))
    else Failure(TypeError("Cannot read properties of null (reading 'id')"))
  }
}
