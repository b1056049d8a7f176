/**
 * `ProfileService`: a user's public profile, and following / unfollowing it. The target is
 * found by user name; the caller is the viewer whose id is tested against the target's
 * followers and connected to or disconnected from them.
 */
module ProfileService {
  import opened Wrappers
  import opened Errors
  import opened Tables
  import opened ArticleMapper
  import opened Store
  import opened PrismaNotFoundCatch

  /** The profile: the user row without `followedBy`, `password`, `updatedAt`, `createdAt` and `email`, plus `following`. */
  datatype ProfileData = ProfileData(id: UserId, username: string, bio: Option<string>, image: Option<string>, following: bool)

  /** The profile shown for a loaded user row: its public fields and whether the viewer is among its followers. */
  function ToProfile(id: UserId, u: User, currentUserId: Option<UserId>): (p: ProfileData)
    ensures p.id == id && p.username == u.username && p.bio == u.bio && p.image == u.image
    ensures p.following <==> currentUserId.Some? && currentUserId.value in u.followedBy
  {
    IncludesIds(IdRefs(u.followedBy), currentUserId);
    AmongIdRefs(u.followedBy, currentUserId);
    ProfileData(id, u.username, u.bio, u.image, Includes(Ids(IdRefs(u.followedBy)), currentUserId))
  }

  /** The projection depends on no private column: rows that differ only in e-mail, password or timestamps give one profile. */
  lemma ProfileHidesPrivateColumns(id: UserId, u: User, v: User, currentUserId: Option<UserId>)
    requires u.username == v.username && u.bio == v.bio && u.image == v.image && u.followedBy == v.followedBy
    ensures ToProfile(id, u, currentUserId) == ToProfile(id, v, currentUserId)
  {
  }

  /** No user has this user name. */
  ghost predicate UnknownUsername(db: Database, username: string)
    reads db
  {
    forall id :: id in db.users ==> db.users[id].username != username
  }

  /** `findOne`: the profile of the user with this user name, or 404 from the client's `rejectOnNotFound`. */
  function FindOne(db: Database, username: string, currentUserId: Option<UserId>): (r: Result<ProfileData, Error>)
    requires db.Valid()
    reads db
    ensures r.Failure? <==> UnknownUsername(db, username)
    ensures r.Failure? ==> r.error == EntityNotFound()
    ensures r.Success? ==>
      && r.value.id in db.users && r.value.username == username
      && r.value.bio == db.users[r.value.id].bio && r.value.image == db.users[r.value.id].image
      && (r.value.following <==> currentUserId.Some? && currentUserId.value in db.users[r.value.id].followedBy)
  {
    match db.UserIdOfUsername(username)
    case None => Failure(RethrowTranslated(EntityNotFound()))
    case Some(id) => Success(ToProfile(id, db.users[id], currentUserId))
  }

  /** `follow`: connect the current user to the target's `followedBy`; following oneself is not refused. */
  method Follow(db: Database, username: string, currentUserId: UserId) returns (r: Result<ProfileData, Error>)
    requires db.Valid() && currentUserId in db.users
    modifies db
    ensures db.Valid()
    ensures db.articles == old(db.articles) && db.comments == old(db.comments) && db.tags == old(db.tags)
    ensures old(UnknownUsername(db, username)) ==> r == Failure(EntityNotFound()) && unchanged(db)
    ensures !old(UnknownUsername(db, username)) ==>
      && r.Success?
      && var id := old(db.UserIdOfUsername(username)).value;
         var u := old(db.users)[id];
         && db.users == old(db.users)[id := u.(followedBy := Connect(u.followedBy, currentUserId))]
         && r.value == ToProfile(id, db.users[id], Some(currentUserId))
         && r.value.username == username && r.value.following
  {
    var found := db.UserIdOfUsername(username);
    if found.None? {
      return Failure(RethrowTranslated(RecordNotFound()));
    }
    var id := found.value;
    var u := db.users[id];
    db.ReplaceUser(id, u.(followedBy := Connect(u.followedBy, currentUserId)));
    r := Success(ToProfile(id, db.users[id], Some(currentUserId)));
  }

  /** `unfollow`: disconnect the current user from the target's `followedBy`; not following is no error. */
  method Unfollow(db: Database, username: string, currentUserId: UserId) returns (r: Result<ProfileData, Error>)
    requires db.Valid()
    modifies db
    ensures db.Valid()
    ensures db.articles == old(db.articles) && db.comments == old(db.comments) && db.tags == old(db.tags)
    ensures old(UnknownUsername(db, username)) ==> r == Failure(EntityNotFound()) && unchanged(db)
    ensures !old(UnknownUsername(db, username)) ==>
      && r.Success?
      && var id := old(db.UserIdOfUsername(username)).value;
         var u := old(db.users)[id];
         && db.users == old(db.users)[id := u.(followedBy := Disconnect(u.followedBy, currentUserId))]
         && r.value == ToProfile(id, db.users[id], Some(currentUserId))
         && r.value.username == username && !r.value.following
  {
    var found := db.UserIdOfUsername(username);
    if found.None? {
      return Failure(RethrowTranslated(RecordNotFound()));
    }
    var id := found.value;
    var u := db.users[id];
    db.ReplaceUser(id, u.(followedBy := Disconnect(u.followedBy, currentUserId)));
    r := Success(ToProfile(id, db.users[id], Some(currentUserId)));
  }
}
