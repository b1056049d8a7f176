/**
 * End-to-end request sequences of the API, proved from the operations' contracts alone, on a
 * new database or on any database in the stated state: registration with a duplicate e-mail,
 * login failures, the article about dragons, favoriting by a second user, a foreign delete and
 * following.
 */
module Scenarios {
  import opened Wrappers
  import opened Errors
  import opened Tables
  import opened Slugify
  import opened ArticleMapper
  import opened Store
  import AuthService
  import ArticleService
  import ProfileService

  /** Registering "jake" succeeds; registering again with the same e-mail is refused and changes nothing. */
  method RegisterTwice(encodePassword: string -> string) {
    var db := new Database();
    var jake := AuthService.CreateUserDto("jake@jake.jake", "jake", "password");
    var r1 := AuthService.Create(db, jake, encodePassword, 0);
    assert r1.Success? && r1.value.username == "jake" && r1.value.password == encodePassword("password");
    assert db.users[0].email == "jake@jake.jake";
    ghost var before := db.users;
    var r2 := AuthService.Create(db, AuthService.CreateUserDto("jake@jake.jake", "jacob", "secret"), encodePassword, 1);
    assert r2 == Failure(HttpException(BAD_REQUEST, "Username and email must be unique!"));
    assert db.users == before;
  }

  /** A wrong password is 401; an unknown e-mail is the client's 404, a different error. */
  method LoginFailures(encodePassword: string -> string, verifyPassword: (string, string) -> bool,
                       encodeJwtToken: AuthService.JwtPayload -> string)
    requires !verifyPassword("wrong", encodePassword("password"))
  {
    var db := new Database();
    var r1 := AuthService.Create(db, AuthService.CreateUserDto("jake@jake.jake", "jake", "password"), encodePassword, 0);
    assert db.UserIdOfEmail("jake@jake.jake") == Some(0);
    var wrong := AuthService.Login(db, AuthService.LoginUserDto("jake@jake.jake", "wrong"), verifyPassword, encodeJwtToken);
    assert wrong == Failure(HttpException(UNAUTHORIZED, "Invalid password!"));
    var unknown := AuthService.Login(db, AuthService.LoginUserDto("anna@anna.anna", "wrong"), verifyPassword, encodeJwtToken);
    assert unknown == Failure(HttpException(NOT_FOUND, "Entity not found!"));
  }

  /** User A, on a database without articles, writes about dragons: the slug is the title's plain slug. */
  method DragonArticle(db: Database, a: UserId)
    requires db.Valid() && a in db.users && db.articles == map[]
    modifies db
  {
    var title := "How to train your dragon";
    var article := ArticleService.Create(db, ArticleService.CreateArticleDto(title, "Ever wonder how?", "Very carefully.",
                                                                                ["dragons", "training"]), a, 2);
    DragonSlug();
    assert old(db.Slugs()) == {};
    ArticleService.FirstCandidateWhenFree(article.slug, title, {});
    assert article.slug == "how-to-train-your-dragon";
    assert article.tagList == db.articles[old(db.nextArticleId)].tagList;
    assert !article.favorited && article.favoritesCount == 0;
  }

  /** The same request against the code as written: 404 "Entity not found!", and no article is stored. */
  method DragonArticleAsWritten(db: Database, a: UserId)
    requires db.Valid() && a in db.users && db.articles == map[]
    modifies db
  {
    var title := "How to train your dragon";
    var r := ArticleService.CreateAsWritten(db, ArticleService.CreateArticleDto(title, "Ever wonder how?", "Very carefully.",
                                                                                   ["dragons", "training"]), a, 2);
    assert r == Failure(HttpException(NOT_FOUND, "Entity not found!"));
    assert db.articles == map[];
  }

  /** An anonymous reader sees an article neither favorited nor its author followed. */
  method AnonymousRead(db: Database, slug: string)
    requires db.Valid() && slug in db.Slugs()
  {
    var r := ArticleService.FindOne(db, slug, None);
    assert r.Success? && !r.value.favorited && !r.value.author.following;
  }

  /** User B favorites an article nobody has favorited: B is its one favoriting user. */
  method FavoriteFirst(db: Database, slug: string, b: UserId)
    requires db.Valid() && b in db.users
    requires slug in db.Slugs() && db.articles[db.ArticleIdOf(slug).value].favoritedBy == []
    modifies db
  {
    ghost var id := db.ArticleIdOf(slug).value;
    var r := ArticleService.Favorite(db, slug, b);
    assert db.articles[id].favoritedBy == [b];
    assert r.Success? && r.value.favoritesCount == 1 && r.value.favorited;
  }

  /** Favoriting again is no error and changes nothing: the count stays one. */
  method FavoriteAgain(db: Database, slug: string, b: UserId)
    requires db.Valid() && b in db.users
    requires slug in db.Slugs() && db.articles[db.ArticleIdOf(slug).value].favoritedBy == [b]
    modifies db
  {
    ghost var before := db.articles;
    var r := ArticleService.Favorite(db, slug, b);
    assert db.articles == before;
    assert r.Success? && r.value.favoritesCount == 1 && r.value.favorited;
  }

  /** Unfavoriting an article one has not favorited is no error and changes nothing. */
  method UnfavoriteAbsent(db: Database, slug: string, b: UserId)
    requires db.Valid()
    requires slug in db.Slugs() && db.articles[db.ArticleIdOf(slug).value].favoritedBy == []
    modifies db
  {
    ghost var before := db.articles;
    var r := ArticleService.Unfavorite(db, slug, b);
    assert db.articles == before;
    assert r.Success? && r.value.favoritesCount == 0 && !r.value.favorited;
  }

  /** When only B has favorited A's article, A sees one favorite and not `favorited`; B sees `favorited`. */
  method FavoriteSeenByEach(db: Database, slug: string, a: UserId, b: UserId)
    requires db.Valid() && a != b
    requires slug in db.Slugs() && db.articles[db.ArticleIdOf(slug).value].favoritedBy == [b]
  {
    var seenByA := ArticleService.FindOne(db, slug, Some(a));
    assert seenByA.Success? && seenByA.value.favoritesCount == 1 && !seenByA.value.favorited;
    var seenByB := ArticleService.FindOne(db, slug, Some(b));
    assert seenByB.Success? && seenByB.value.favorited;
  }

  /** A delete by someone other than the author is forbidden, and the article can still be read. */
  method ForeignDelete(db: Database, slug: string, b: UserId)
    requires db.Valid() && slug in db.Slugs() && db.articles[db.ArticleIdOf(slug).value].authorId != b
    modifies db
  {
    var deleted := ArticleService.Delete(db, slug, b);
    assert deleted == Failure(HttpException(FORBIDDEN, "Permission denied!"));
    var still := ArticleService.FindOne(db, slug, None);
    assert still.Success?;
  }

  /** Following a profile one already follows is no error and leaves one follower. */
  method FollowAgain(db: Database, a: UserId, b: UserId)
    requires db.Valid() && a in db.users && b in db.users && db.users[a].followedBy == [b]
    modifies db
  {
    var r := ProfileService.Follow(db, db.users[a].username, b);
    assert db.users[a].followedBy == [b];
    assert r.Success? && r.value.following;
  }

  /** Unfollowing a profile one does not follow is no error and leaves it without followers. */
  method UnfollowAbsent(db: Database, a: UserId, b: UserId)
    requires db.Valid() && a in db.users && db.users[a].followedBy == []
    modifies db
  {
    var r := ProfileService.Unfollow(db, db.users[a].username, b);
    assert r.Success? && !r.value.following && db.users[a].followedBy == [];
  }

  /** Following oneself is accepted. */
  method FollowSelf(db: Database, a: UserId)
    requires db.Valid() && a in db.users
    modifies db
  {
    var r := ProfileService.Follow(db, db.users[a].username, a);
    assert r.Success? && r.value.following && a in db.users[a].followedBy;
  }
}
