/**
 * `UserService`: the current user's record, and updating it. The update writes the request's
 * fields over the stored row as they are; the password in particular is stored without hashing.
 */
module UserService {
  import opened Wrappers
  import opened Errors
  import opened ArticleMapper
  import opened Store
  import opened PrismaNotFoundCatch

  /** The optional fields of an update; `Some` means the key is present in the request body. */
  datatype UpdateUserDto = UpdateUserDto(
    email: Option<string>, username: Option<string>, password: Option<string>,
    image: Option<string>, bio: Option<string>)

  /** `getCurrentUser`: the record of the current user; a miss is rejected by `rejectOnNotFound`. */
  function GetCurrentUser(db: Database, currentUserId: UserId): (r: Result<UserRecord, Error>)
    reads db
    ensures r.Success? <==> currentUserId in db.users
    ensures r.Failure? ==> r.error == EntityNotFound()
    ensures r.Success? ==> r.value.id == currentUserId && r.value == RecordOf(currentUserId, db.users[currentUserId])
  {
    if currentUserId in db.users then Success(RecordOf(currentUserId, db.users[currentUserId]))
    else Failure(EntityNotFound())
  }

  /**
   * The row `update` writes: `{ ...userDto, updatedAt }` over the stored one. A field present in
   * the request replaces the column; an absent field leaves it; `followedBy` and `createdAt` stay.
   */
  function UpdateData(u: User, userDto: UpdateUserDto, now: Time): (v: User)
    ensures v.email == (if userDto.email.Some? then userDto.email.value else u.email)
    ensures v.username == (if userDto.username.Some? then userDto.username.value else u.username)
    ensures v.password == (if userDto.password.Some? then userDto.password.value else u.password)
    ensures v.image == (if userDto.image.Some? then userDto.image else u.image)
    ensures v.bio == (if userDto.bio.Some? then userDto.bio else u.bio)
    ensures v.followedBy == u.followedBy && v.createdAt == u.createdAt && v.updatedAt == Some(now)
  {
    u.(email := userDto.email.GetOr(u.email),
       username := userDto.username.GetOr(u.username),
       password := userDto.password.GetOr(u.password),
       image := if userDto.image.Some? then userDto.image else u.image,
       bio := if userDto.bio.Some? then userDto.bio else u.bio,
       updatedAt := Some(now))
  }

  /** The new user name or e-mail belongs to another user, so the write violates a unique column. */
  predicate ClashesWithOther(db: Database, id: UserId, v: User)
    reads db
  {
    exists other :: other in db.users && other != id && (db.users[other].username == v.username || db.users[other].email == v.email)
  }

  /** `update`: write the present fields over the current user's row; P2025 becomes 404, other errors pass through. */
  method Update(db: Database, userDto: UpdateUserDto, currentUserId: UserId, now: Time) returns (r: Result<UserRecord, Error>)
    requires db.Valid()
    modifies db
    ensures db.Valid()
    ensures db.articles == old(db.articles) && db.comments == old(db.comments) && db.tags == old(db.tags)
    ensures currentUserId !in old(db.users) ==> r == Failure(EntityNotFound()) && unchanged(db)
    ensures currentUserId in old(db.users) ==>
      var v := UpdateData(old(db.users)[currentUserId], userDto, now);
      if old(ClashesWithOther(db, currentUserId, v)) then
        r == Failure(UniqueConstraintFailed()) && unchanged(db)
      else
        && r.Success?
        && db.users == old(db.users)[currentUserId := v]
        && r.value == RecordOf(currentUserId, v)
  {
    if currentUserId !in db.users {
      return Failure(RethrowTranslated(RecordNotFound()));
    }
    var v := UpdateData(db.users[currentUserId], userDto, now);
    if ClashesWithOther(db, currentUserId, v) {
      return Failure(RethrowTranslated(UniqueConstraintFailed()));
    }
    db.ReplaceUser(currentUserId, v);
    r := Success(RecordOf(currentUserId, v));
  }
}
