/**
 * `ArticleService` over the in-memory database: list and feed queries, point lookup,
 * creation with slug generation and tag connect-or-create, owner-checked update and delete,
 * comments, and favorite / unfavorite. Responses are returned without their `{ article }`,
 * `{ comments }` wrapper objects.
 */
module ArticleService {
  import opened Wrappers
  import opened Errors
  import opened Tables
  import opened Slugify
  import opened ArticleMapper
  import opened ArticleQuery
  import opened Store
  import opened NotFoundCatch

  datatype ArticlesRes = ArticlesRes(articles: seq<ArticleData>, articlesCount: nat)

  datatype CreateArticleDto = CreateArticleDto(title: string, description: string, body: string, tagList: seq<string>)

  /** The optional fields of an update; `Some` means the key is present in the request body. */
  datatype UpdateArticleDto = UpdateArticleDto(title: Option<string>, description: Option<string>, body: Option<string>)

  datatype CreateCommentDto = CreateCommentDto(body: string)

  /** `slug` is what `generateSlug(title)` returns against the slugs `taken`: the first free candidate. */
  ghost predicate IsGeneratedSlug(slug: string, title: string, taken: set<string>) {
    && slug !in taken
    && exists k: nat :: slug == Slugify.Candidate(title, k) && Tried(title, k) <= taken
  }

  /** When the plain slug of the title is free, it is the one generated. */
  lemma {:induction false} FirstCandidateWhenFree(slug: string, title: string, taken: set<string>)
    requires IsGeneratedSlug(slug, title, taken)
    requires CreateSlug(title) !in taken
    ensures slug == CreateSlug(title)
  {
    var k: nat :| slug == Slugify.Candidate(title, k) && Tried(title, k) <= taken;
    assert Slugify.Candidate(title, 0) == CreateSlug(title);
    assert k > 0 ==> CreateSlug(title) in Tried(title, k);
  }

  /** The generated slug is determined by the title and the slugs taken: the first free candidate. */
  lemma {:induction false} GeneratedSlugUnique(s1: string, s2: string, title: string, taken: set<string>)
    requires IsGeneratedSlug(s1, title, taken) && IsGeneratedSlug(s2, title, taken)
    ensures s1 == s2
  {
    var k1: nat :| s1 == Slugify.Candidate(title, k1) && Tried(title, k1) <= taken;
    var k2: nat :| s2 == Slugify.Candidate(title, k2) && Tried(title, k2) <= taken;
    assert k1 < k2 ==> s1 in Tried(title, k2);
    assert k2 < k1 ==> s2 in Tried(title, k1);
  }

  /** `d` is the response for article `id` seen by `viewer`, stated in terms of the stored rows. */
  ghost predicate Presents(db: Database, id: ArticleId, viewer: Option<UserId>, d: ArticleData)
    requires db.Valid() && id in db.articles
    reads db
  {
    var a := db.articles[id];
    var author := db.users[a.authorId];
    && d.slug == a.slug && d.title == a.title && d.description == a.description && d.body == a.body
    && d.createdAt == a.createdAt && d.updatedAt == a.updatedAt
    && d.tagList == a.tagList
    && d.favoritesCount == |a.favoritedBy|
    && (d.favorited <==> viewer.Some? && viewer.value in a.favoritedBy)
    && d.author.username == author.username && d.author.bio == author.bio && d.author.image == author.image
    && (d.author.following <==> viewer.Some? && viewer.value in author.followedBy)
  }

  /** `mapArticleDataRes` applied to a loaded article presents that article. */
  lemma MapPresents(db: Database, id: ArticleId, viewer: Option<UserId>)
    requires db.Valid() && id in db.articles
    ensures Presents(db, id, viewer, MapArticleDataRes(viewer, db.ArticleRowOf(id)))
  {
    var a := db.articles[id];
    var d := MapArticleDataRes(viewer, db.ArticleRowOf(id));
    AmongIdRefs(a.favoritedBy, viewer);
    AmongIdRefs(db.users[a.authorId].followedBy, viewer);
    assert d.tagList == a.tagList;
  }

  function MapAll(cs: seq<Candidate>, viewer: Option<UserId>): (r: seq<ArticleData>)
    ensures |r| == |cs|
    ensures forall k :: 0 <= k < |cs| ==> r[k] == MapArticleDataRes(viewer, cs[k].row)
  {
    seq(|cs|, k requires 0 <= k < |cs| => MapArticleDataRes(viewer, cs[k].row))
  }

  /** The rows of a page taken from the article table are rows of matching articles. */
  lemma PageFromMatchingArticles(db: Database, clauses: seq<Clause>, page: seq<Candidate>)
    requires db.Valid()
    requires forall c :: c in page ==> c in db.ArticleTable() && MatchesAll(clauses, c.facts)
    ensures forall k :: 0 <= k < |page| ==> page[k].row.slug in db.MatchingSlugs(clauses)
  {
    forall k | 0 <= k < |page| ensures page[k].row.slug in db.MatchingSlugs(clauses) {
      var c := page[k];
      db.TableIsArticles(c);
      var id :| id in db.articles && db.CandidateOf(id) == c;
      assert db.FactsOf(id) == c.facts;
    }
  }

  /**
   * `articles` shows the window of the newest-first matches `all` that `skip` and `take` select:
   * entry `k` is the match at position offset + `k`, mapped for `viewer`.
   */
  ghost predicate PresentsPage(articles: seq<ArticleData>, all: seq<Candidate>, skip: Option<nat>, take: Option<nat>,
                               viewer: Option<UserId>)
  {
    var from := PageStart(|all|, skip);
    && from + |articles| <= |all|
    && (take.None? ==> |articles| == |all| - from)
    && (take.Some? && take.value <= |all| - from ==> |articles| == take.value)
    && (take.Some? && take.value > |all| - from ==> |articles| == |all| - from)
    && forall k :: 0 <= k < |articles| ==> articles[k] == MapArticleDataRes(viewer, all[from + k].row)
  }

  lemma MapPage(all: seq<Candidate>, page: seq<Candidate>, skip: Option<nat>, take: Option<nat>, viewer: Option<UserId>)
    requires IsPageOf(page, all, skip, take)
    ensures PresentsPage(MapAll(page, viewer), all, skip, take, viewer)
  {
    var from := PageStart(|all|, skip);
    forall k | 0 <= k < |page| ensures page[k] == all[from + k] {
    }
  }

  /** Every article matching the clauses has its row among the newest-first matches. */
  lemma {:induction false} AllMatchesListed(db: Database, clauses: seq<Clause>)
    requires db.Valid()
    ensures var all := NewestFirst(clauses, db.ArticleTable());
      forall id :: id in db.MatchingArticleIds(clauses) ==> exists k :: 0 <= k < |all| && all[k].row.slug == db.articles[id].slug
  {
    var all := NewestFirst(clauses, db.ArticleTable());
    forall id | id in db.MatchingArticleIds(clauses)
      ensures exists k :: 0 <= k < |all| && all[k].row.slug == db.articles[id].slug
    {
      var c := db.CandidateOf(id);
      db.TableIsArticles(c);
      assert c in all;
      var k :| 0 <= k < |all| && all[k] == c;
      assert all[k].row.slug == db.articles[id].slug;
    }
  }

  /** Without `skip` and `take` the page shows every row of `all`, in order. */
  lemma WholePage(articles: seq<ArticleData>, all: seq<Candidate>, viewer: Option<UserId>)
    requires PresentsPage(articles, all, None, None, viewer)
    ensures |articles| == |all|
    ensures forall k :: 0 <= k < |all| ==> articles[k].slug == all[k].row.slug
  {
    assert PageStart(|all|, None) == 0;
    forall k | 0 <= k < |all| ensures articles[k].slug == all[k].row.slug {
      assert articles[k] == MapArticleDataRes(viewer, all[0 + k].row);
    }
  }

  /** With neither `limit` nor `offset`, the page lists every matching article. */
  lemma ListsEveryMatch(db: Database, clauses: seq<Clause>, articles: seq<ArticleData>, viewer: Option<UserId>)
    requires db.Valid()
    requires PresentsPage(articles, NewestFirst(clauses, db.ArticleTable()), None, None, viewer)
    ensures |articles| == |NewestFirst(clauses, db.ArticleTable())|
    ensures forall id :: id in db.MatchingArticleIds(clauses) ==> exists k :: 0 <= k < |articles| && articles[k].slug == db.articles[id].slug
  {
    var all := NewestFirst(clauses, db.ArticleTable());
    AllMatchesListed(db, clauses);
    WholePage(articles, all, viewer);
    forall id | id in db.MatchingArticleIds(clauses)
      ensures exists k :: 0 <= k < |articles| && articles[k].slug == db.articles[id].slug
    {
      var k :| 0 <= k < |all| && all[k].row.slug == db.articles[id].slug;
      assert articles[k].slug == db.articles[id].slug;
    }
  }

  /**
   * `findAll`: the matching articles newest first, from `offset` on, at most `limit` of them,
   * and the number of ALL matching articles.
   */
  function FindAll(db: Database, query: ListQueryParams, currentUserId: Option<UserId>): (r: ArticlesRes)
    requires db.Valid()
    reads db
    ensures r.articlesCount == |db.MatchingArticleIds(WhereClauses(query))|
    ensures PresentsPage(r.articles, NewestFirst(WhereClauses(query), db.ArticleTable()), query.offset, query.limit, currentUserId)
    ensures query.limit.Some? ==> |r.articles| <= query.limit.value
    ensures forall k :: 0 <= k < |r.articles| ==> r.articles[k].slug in db.MatchingSlugs(WhereClauses(query))
    ensures forall i, j :: 0 <= i < j < |r.articles| ==> r.articles[i].createdAt >= r.articles[j].createdAt
    ensures query.offset.None? && query.limit.None? ==>
      && |r.articles| == r.articlesCount
      && forall id :: id in db.MatchingArticleIds(WhereClauses(query)) ==>
           exists k :: 0 <= k < |r.articles| && r.articles[k].slug == db.articles[id].slug
  {
    var whereClause := WhereClauses(query);
    var articles := FindMany(ListQuery(whereClause, query), db.ArticleTable());
    db.CountIsMatchingArticles(whereClause);
    PageFromMatchingArticles(db, whereClause, articles);
    MapPage(NewestFirst(whereClause, db.ArticleTable()), articles, query.offset, query.limit, currentUserId);
    if query.offset.None? && query.limit.None? then
      ListsEveryMatch(db, whereClause, MapAll(articles, currentUserId), currentUserId);
      ArticlesRes(MapAll(articles, currentUserId), Count(whereClause, db.ArticleTable()))
    else
      ArticlesRes(MapAll(articles, currentUserId), Count(whereClause, db.ArticleTable()))
  }

  /** The articles whose author `currentUserId` follows. */
  function FollowedArticleIds(db: Database, currentUserId: UserId): set<ArticleId>
    requires db.Valid()
    reads db
  {
    set id | id in db.articles && currentUserId in db.users[db.articles[id].authorId].followedBy
  }

  /** The feed's clause holds exactly of the articles whose author `currentUserId` follows. */
  lemma FeedClauseMeaning(db: Database, currentUserId: UserId)
    requires db.Valid()
    ensures db.MatchingArticleIds([AuthorFollowedBySome(currentUserId)]) == FollowedArticleIds(db, currentUserId)
  {
    var clauses := [AuthorFollowedBySome(currentUserId)];
    forall id | id in db.articles
      ensures MatchesAll(clauses, db.FactsOf(id)) <==> currentUserId in db.users[db.articles[id].authorId].followedBy
    {
      assert clauses[0] == AuthorFollowedBySome(currentUserId);
    }
  }

  /** `feed`: like `findAll`, with the single clause "the author is followed by `currentUserId`". */
  function Feed(db: Database, query: ListQueryParams, currentUserId: UserId): (r: ArticlesRes)
    requires db.Valid()
    reads db
    ensures r.articlesCount == |FollowedArticleIds(db, currentUserId)|
    ensures PresentsPage(r.articles, NewestFirst([AuthorFollowedBySome(currentUserId)], db.ArticleTable()),
                         query.offset, query.limit, Some(currentUserId))
    ensures query.limit.Some? ==> |r.articles| <= query.limit.value
    ensures forall k :: 0 <= k < |r.articles| ==> r.articles[k].slug in db.MatchingSlugs([AuthorFollowedBySome(currentUserId)])
    ensures forall i, j :: 0 <= i < j < |r.articles| ==> r.articles[i].createdAt >= r.articles[j].createdAt
    ensures query.offset.None? && query.limit.None? ==>
      && |r.articles| == r.articlesCount
      && forall id :: id in FollowedArticleIds(db, currentUserId) ==>
           exists k :: 0 <= k < |r.articles| && r.articles[k].slug == db.articles[id].slug
  {
    var whereClause := [AuthorFollowedBySome(currentUserId)];
    var articles := FindMany(ListQuery(whereClause, query), db.ArticleTable());
    db.CountIsMatchingArticles(whereClause);
    FeedClauseMeaning(db, currentUserId);
    PageFromMatchingArticles(db, whereClause, articles);
    MapPage(NewestFirst(whereClause, db.ArticleTable()), articles, query.offset, query.limit, Some(currentUserId));
    if query.offset.None? && query.limit.None? then
      ListsEveryMatch(db, whereClause, MapAll(articles, Some(currentUserId)), Some(currentUserId));
      ArticlesRes(MapAll(articles, Some(currentUserId)), Count(whereClause, db.ArticleTable()))
    else
      ArticlesRes(MapAll(articles, Some(currentUserId)), Count(whereClause, db.ArticleTable()))
  }

  /** `findOne`: a missing slug is rejected by the client's default `rejectOnNotFound`. */
  function FindOne(db: Database, slug: string, currentUserId: Option<UserId>): (r: Result<ArticleData, Error>)
    requires db.Valid()
    reads db
    ensures r.Success? <==> slug in db.Slugs()
    ensures r.Failure? ==> r.error == EntityNotFound()
    ensures r.Success? ==> r.value.slug == slug && Presents(db, db.ArticleIdOf(slug).value, currentUserId, r.value)
  {
    match db.ArticleIdOf(slug)
    case None => Failure(EntityNotFound())
    case Some(id) =>
      MapPresents(db, id, currentUserId);
      Success(MapArticleDataRes(currentUserId, db.ArticleRowOf(id)))
  }

  /** `isSlugUnique`: no article has this slug. */
  function IsSlugUnique(db: Database, slug: string): (r: bool)
    requires db.Valid()
    reads db
    ensures r <==> slug !in db.Slugs()
  {
    db.ArticleIdOf(slug).None?
  }

  /** `generateSlug`: try the candidates in order until one is free. */
  method GenerateSlug(db: Database, title: string) returns (slug: string)
    requires db.Valid()
    ensures IsGeneratedSlug(slug, title, db.Slugs())
  {
    slug := CreateSlug(title);
    var i: nat := 1;
    ghost var tried: nat := 0;
    assert Tried(title, 0) == {};
    while !IsSlugUnique(db, slug)
      invariant i == tried + 1
      invariant slug == Slugify.Candidate(title, tried)
      invariant Tried(title, tried) <= db.Slugs()
      decreases |db.Slugs() - Tried(title, tried)|
    {
      TriedGrows(title, tried, db.Slugs());
      slug := CreateSlug(title + " " + NatToString(i));
      i := i + 1;
      tried := tried + 1;
    }
  }

  // `isSlugUnique` and `generateSlug` as written. The client is built with a default
  // `rejectOnNotFound` for `findUnique` (prisma.service.ts), and `isSlugUnique` does not override
  // it, so the lookup of a FREE slug rejects with 404 instead of returning null. The members
  // above give the evidently intended behaviour, which `Create` and `Update` use.

  /** `isSlugUnique` as written: `false` for a taken slug, 404 "Entity not found!" for a free one. */
  function IsSlugUniqueAsWritten(db: Database, slug: string): (r: Result<bool, Error>)
    requires db.Valid()
    reads db
    ensures slug in db.Slugs() ==> r == Success(false)
    ensures slug !in db.Slugs() ==> r == Failure(EntityNotFound())
  {
    match db.ArticleIdOf(slug)
    case None => Failure(EntityNotFound())
    case Some(_) => Success(false)
  }

  /** Exactly where the intended check answers "free", the check as written rejects. */
  lemma IsSlugUniqueRejectsFreeSlug(db: Database, slug: string)
    requires db.Valid()
    ensures IsSlugUnique(db, slug) <==> IsSlugUniqueAsWritten(db, slug).Failure?
    ensures IsSlugUniqueAsWritten(db, slug) != Success(true)
  {
  }

  /**
   * `generateSlug` as written: the same walk over the candidates, which ends at the first free
   * one with the rejection of its lookup; no slug is ever returned.
   */
  method GenerateSlugAsWritten(db: Database, title: string) returns (r: Result<string, Error>)
    requires db.Valid()
    ensures r == Failure(EntityNotFound())
  {
    var slug := CreateSlug(title);
    var i: nat := 1;
    ghost var tried: nat := 0;
    assert Tried(title, 0) == {};
    while IsSlugUniqueAsWritten(db, slug) == Success(false)
      invariant i == tried + 1
      invariant slug == Slugify.Candidate(title, tried)
      invariant Tried(title, tried) <= db.Slugs()
      decreases |db.Slugs() - Tried(title, tried)|
    {
      TriedGrows(title, tried, db.Slugs());
      slug := CreateSlug(title + " " + NatToString(i));
      i := i + 1;
      tried := tried + 1;
    }
    var unique := IsSlugUniqueAsWritten(db, slug);
    r := if unique.Failure? then Failure(unique.error) else Success(slug);
  }

  /** `isArticleOwner`: 404 when the slug is missing, 403 when the article has another author. */
  function IsArticleOwner(db: Database, slug: string, currentUserId: UserId): (r: Outcome<Error>)
    requires db.Valid()
    reads db
    ensures slug !in db.Slugs() ==> r == Fail(HttpException(NOT_FOUND, "Article not found"))
    ensures slug in db.Slugs() ==> (r.Pass? <==> db.articles[db.ArticleIdOf(slug).value].authorId == currentUserId)
    ensures slug in db.Slugs() && r.Fail? ==> r.error == HttpException(FORBIDDEN, "Permission denied!")
  {
    match db.ArticleIdOf(slug)
    case None => Fail(HttpException(NOT_FOUND, "Article not found"))
    case Some(id) =>
      if db.articles[id].authorId != currentUserId then Fail(HttpException(FORBIDDEN, "Permission denied!")) else Pass
  }

  /** `create`: a fresh slug, the current user as author, every tag connected or created. */
  method Create(db: Database, articleDto: CreateArticleDto, currentUserId: UserId, now: Time) returns (r: ArticleData)
    requires db.Valid() && currentUserId in db.users
    modifies db
    ensures db.Valid()
    ensures db.users == old(db.users) && db.comments == old(db.comments)
    ensures db.tags == old(db.tags) + set t | t in articleDto.tagList
    ensures var id := old(db.nextArticleId);
      && id !in old(db.articles) && id in db.articles
      && db.articles == old(db.articles)[id := CreateData(articleDto, db.articles[id].slug, currentUserId, now)]
      && IsGeneratedSlug(db.articles[id].slug, articleDto.title, old(db.Slugs()))
      && Presents(db, id, Some(currentUserId), r)
  {
    var slug := GenerateSlug(db, articleDto.title);
    var article := CreateData(articleDto, slug, currentUserId, now);
    var id := db.InsertArticle(article);
    MapPresents(db, id, Some(currentUserId));
    r := MapArticleDataRes(Some(currentUserId), db.ArticleRowOf(id));
  }

  /** The row `create` writes: the request's columns, the author, each tag connected once, no favorites yet. */
  function CreateData(articleDto: CreateArticleDto, slug: string, authorId: UserId, now: Time): (a: Article)
    ensures a.slug == slug && a.title == articleDto.title && a.description == articleDto.description && a.body == articleDto.body
    ensures a.authorId == authorId && a.favoritedBy == [] && a.createdAt == now && a.updatedAt == None
    ensures NoDuplicates(a.tagList) && forall t :: t in a.tagList <==> t in articleDto.tagList
  {
    Article(slug, articleDto.title, articleDto.description, articleDto.body,
            authorId, ConnectAll([], articleDto.tagList), [], now, None)
  }

  /** `update`: after the owner check, overwrite the fields present, refresh `updatedAt`, and regenerate the slug when `title` is present. */
  method Update(db: Database, slug: string, artilceDto: UpdateArticleDto, currentUserId: UserId, now: Time)
    returns (r: Result<ArticleData, Error>)
    requires db.Valid()
    modifies db
    ensures db.Valid()
    ensures r.Failure? <==> old(IsArticleOwner(db, slug, currentUserId)).Fail?
    ensures r.Failure? ==> r.error == old(IsArticleOwner(db, slug, currentUserId)).error && unchanged(db)
    ensures r.Success? ==>
      && db.users == old(db.users) && db.comments == old(db.comments) && db.tags == old(db.tags)
      && db.nextArticleId == old(db.nextArticleId)
      && var id := old(db.ArticleIdOf(slug)).value;
         var a := old(db.articles)[id];
         && id in db.articles
         && db.articles == old(db.articles)[id := UpdateData(a, artilceDto, db.articles[id].slug, now)]
         && (artilceDto.title.None? ==> db.articles[id].slug == a.slug)
         && (artilceDto.title.Some? ==> IsGeneratedSlug(db.articles[id].slug, artilceDto.title.value, old(db.Slugs())))
         && Presents(db, id, Some(currentUserId), r.value)
  {
    var owner := IsArticleOwner(db, slug, currentUserId);
    if owner.Fail? {
      return Failure(owner.error);
    }
    var id := db.ArticleIdOf(slug).value;
    var a := db.articles[id];
    var newSlug := UpdatedSlug(db, a.slug, artilceDto.title);
    assert forall other :: other in db.articles && other != id ==> db.articles[other].slug in db.Slugs();
    db.ReplaceArticle(id, UpdateData(a, artilceDto, newSlug, now));
    MapPresents(db, id, Some(currentUserId));
    r := Success(MapArticleDataRes(Some(currentUserId), db.ArticleRowOf(id)));
  }

  /**
   * `create` as written: the slug is awaited before `article.create` is issued, and the rejection
   * of `generateSlug` propagates out of it, so every request fails and nothing is stored.
   */
  method CreateAsWritten(db: Database, articleDto: CreateArticleDto, currentUserId: UserId, now: Time)
    returns (r: Result<ArticleData, Error>)
    requires db.Valid() && currentUserId in db.users
    modifies db
    ensures r == Failure(EntityNotFound()) && unchanged(db)
  {
    var generated := GenerateSlugAsWritten(db, articleDto.title);
    if generated.Failure? {
      return Failure(generated.error);
    }
    assert false;
  }

  /**
   * `update` as written: after the owner check, a request with a `title` key awaits
   * `generateSlug`, whose rejection propagates before `article.update` is issued; a request
   * without one is the update above.
   */
  method UpdateAsWritten(db: Database, slug: string, artilceDto: UpdateArticleDto, currentUserId: UserId, now: Time)
    returns (r: Result<ArticleData, Error>)
    requires db.Valid()
    modifies db
    ensures db.Valid()
    ensures old(IsArticleOwner(db, slug, currentUserId)).Fail? ==>
      r == Failure(old(IsArticleOwner(db, slug, currentUserId)).error) && unchanged(db)
    ensures old(IsArticleOwner(db, slug, currentUserId)).Pass? && artilceDto.title.Some? ==>
      r == Failure(EntityNotFound()) && unchanged(db)
    ensures old(IsArticleOwner(db, slug, currentUserId)).Pass? && artilceDto.title.None? ==>
      && r.Success?
      && db.users == old(db.users) && db.comments == old(db.comments) && db.tags == old(db.tags)
      && var id := old(db.ArticleIdOf(slug)).value;
         var a := old(db.articles)[id];
         && db.articles == old(db.articles)[id := UpdateData(a, artilceDto, a.slug, now)]
         && Presents(db, id, Some(currentUserId), r.value)
  {
    var owner := IsArticleOwner(db, slug, currentUserId);
    if owner.Fail? {
      return Failure(owner.error);
    }
    if artilceDto.title.Some? {
      var generated := GenerateSlugAsWritten(db, artilceDto.title.value);
      if generated.Failure? {
        return Failure(generated.error);
      }
      assert false;
    }
    r := Update(db, slug, artilceDto, currentUserId, now);
  }

  /**
   * The row `update` writes: the request's fields, the update time and the slug over the stored one. A key present
   * in the request replaces the column; an absent key leaves it; the relations and `createdAt` stay.
   */
  function UpdateData(a: Article, artilceDto: UpdateArticleDto, slug: string, now: Time): (b: Article)
    ensures b.title == (if artilceDto.title.Some? then artilceDto.title.value else a.title)
    ensures b.description == (if artilceDto.description.Some? then artilceDto.description.value else a.description)
    ensures b.body == (if artilceDto.body.Some? then artilceDto.body.value else a.body)
    ensures b.slug == slug && b.updatedAt == Some(now)
    ensures b.authorId == a.authorId && b.tagList == a.tagList && b.favoritedBy == a.favoritedBy && b.createdAt == a.createdAt
    ensures artilceDto == UpdateArticleDto(None, None, None) && slug == a.slug ==> b == a.(updatedAt := Some(now))
  {
    a.(title := artilceDto.title.GetOr(a.title),
       description := artilceDto.description.GetOr(a.description),
       body := artilceDto.body.GetOr(a.body),
       updatedAt := Some(now),
       slug := slug)
  }

  /** The slug an update stores: regenerated from the new title when `title` is present, else the current one. */
  method UpdatedSlug(db: Database, current: string, title: Option<string>) returns (slug: string)
    requires db.Valid() && current in db.Slugs()
    ensures title.None? ==> slug == current
    ensures title.Some? ==> IsGeneratedSlug(slug, title.value, db.Slugs()) && slug != current
  {
    slug := current;
    if title.Some? {
      slug := GenerateSlug(db, title.value);
    }
  }

  /** `delete`: after the owner check, remove the article. */
  method Delete(db: Database, slug: string, currentUserId: UserId) returns (r: Result<(), Error>)
    requires db.Valid()
    modifies db
    ensures db.Valid()
    ensures r.Failure? <==> old(IsArticleOwner(db, slug, currentUserId)).Fail?
    ensures r.Failure? ==> r.error == old(IsArticleOwner(db, slug, currentUserId)).error && unchanged(db)
    ensures r.Success? ==>
      && db.articles == old(db.articles) - {old(db.ArticleIdOf(slug)).value}
      && slug !in db.Slugs()
      && db.users == old(db.users) && db.comments == old(db.comments) && db.tags == old(db.tags)
      && db.nextArticleId == old(db.nextArticleId)
  {
    var owner := IsArticleOwner(db, slug, currentUserId);
    if owner.Fail? {
      return Failure(owner.error);
    }
    var id := db.ArticleIdOf(slug).value;
    db.articles := db.articles - {id};
    r := Success(());
  }

  /** `createComment`: connect the new comment to the article and to the current user. */
  method CreateComment(db: Database, slug: string, commentDto: CreateCommentDto, currentUserId: UserId, now: Time)
    returns (r: Result<CommentData, Error>)
    requires db.Valid() && currentUserId in db.users
    modifies db
    ensures db.Valid()
    ensures db.users == old(db.users) && db.articles == old(db.articles) && db.tags == old(db.tags)
    ensures slug !in old(db.Slugs()) ==> r == Failure(RecordNotFound()) && unchanged(db)
    ensures slug in old(db.Slugs()) ==>
      && r.Success?
      && var id := old(db.nextCommentId);
         && id !in old(db.comments)
         && db.comments == old(db.comments)[id := Comment(commentDto.body, currentUserId, old(db.ArticleIdOf(slug)).value, now, None)]
         && r.value.id == id && r.value.body == commentDto.body && r.value.createdAt == now
         && r.value.author.username == db.users[currentUserId].username
         && (r.value.author.following <==> currentUserId in db.users[currentUserId].followedBy)
  {
    var articleId := db.ArticleIdOf(slug);
    if articleId.None? {
      return Failure(RecordNotFound());
    }
    var id := db.nextCommentId;
    db.comments := db.comments[id := Comment(commentDto.body, currentUserId, articleId.value, now, None)];
    db.nextCommentId := id + 1;
    AmongIdRefs(db.users[currentUserId].followedBy, Some(currentUserId));
    r := Success(MapCommentDataRes(Some(currentUserId), db.CommentRowOf(id)));
  }

  /** `findAllComments`: the comments attached to the article with this slug, in table order. */
  function FindAllComments(db: Database, slug: string, currentUserId: Option<UserId>): (r: seq<CommentData>)
    requires db.Valid()
    reads db
    ensures slug !in db.Slugs() ==> r == []
    ensures slug in db.Slugs() ==>
      var ids := db.CommentIdsOf(db.ArticleIdOf(slug).value);
      && |r| == |ids|
      && forall k :: 0 <= k < |ids| ==>
           && r[k].id == ids[k] && r[k].body == db.comments[ids[k]].body
           && r[k].createdAt == db.comments[ids[k]].createdAt
           && r[k].author.username == db.users[db.comments[ids[k]].authorId].username
           && (r[k].author.following <==>
                 currentUserId.Some? && currentUserId.value in db.users[db.comments[ids[k]].authorId].followedBy)
  {
    match db.ArticleIdOf(slug)
    case None => []
    case Some(articleId) =>
      var ids := db.CommentIdsOf(articleId);
      assert forall k :: 0 <= k < |ids| ==> ids[k] in ids;
      MapCommentsPresents(db, ids, currentUserId);
      MapComments(db, ids, currentUserId)
  }

  lemma MapCommentsPresents(db: Database, ids: seq<CommentId>, viewer: Option<UserId>)
    requires db.Valid() && forall k :: 0 <= k < |ids| ==> ids[k] in db.comments
    ensures var r := MapComments(db, ids, viewer);
      forall k :: 0 <= k < |ids| ==>
        && r[k].id == ids[k] && r[k].body == db.comments[ids[k]].body
        && r[k].createdAt == db.comments[ids[k]].createdAt
        && r[k].author.username == db.users[db.comments[ids[k]].authorId].username
        && (r[k].author.following <==> viewer.Some? && viewer.value in db.users[db.comments[ids[k]].authorId].followedBy)
  {
    forall k | 0 <= k < |ids|
      ensures MapComments(db, ids, viewer)[k].author.following <==>
                viewer.Some? && viewer.value in db.users[db.comments[ids[k]].authorId].followedBy
    {
      AmongIdRefs(db.users[db.comments[ids[k]].authorId].followedBy, viewer);
    }
  }

  function MapComments(db: Database, ids: seq<CommentId>, viewer: Option<UserId>): (r: seq<CommentData>)
    requires db.Valid() && forall k :: 0 <= k < |ids| ==> ids[k] in db.comments
    reads db
    ensures |r| == |ids|
    ensures forall k :: 0 <= k < |ids| ==> r[k] == MapCommentDataRes(viewer, db.CommentRowOf(ids[k]))
  {
    if ids == [] then [] else [MapCommentDataRes(viewer, db.CommentRowOf(ids[0]))] + MapComments(db, ids[1..], viewer)
  }

  /** `deleteComment`: delete by id; a missing id is P2025, translated by `catchNotFoundError`. */
  method DeleteComment(db: Database, slug: string, commentId: CommentId, currentUserId: UserId)
    returns (r: Result<(), Error>)
    requires db.Valid()
    modifies db
    ensures db.Valid()
    ensures commentId !in old(db.comments) ==> r == Failure(HttpException(NOT_FOUND, "Article not found!")) && unchanged(db)
    ensures commentId in old(db.comments) ==> r.Success? && db.comments == old(db.comments) - {commentId}
    ensures db.users == old(db.users) && db.articles == old(db.articles) && db.tags == old(db.tags)
  {
    if commentId !in db.comments {
      return CatchNotFoundError(RecordNotFound());
    }
    db.comments := db.comments - {commentId};
    r := Success(());
  }

  /** `favorite`: connect the current user to the article's `favoritedBy`. */
  method Favorite(db: Database, slug: string, currentUserId: UserId) returns (r: Result<ArticleData, Error>)
    requires db.Valid() && currentUserId in db.users
    modifies db
    ensures db.Valid()
    ensures slug !in old(db.Slugs()) ==> r == Failure(HttpException(NOT_FOUND, "Article not found!")) && unchanged(db)
    ensures slug in old(db.Slugs()) ==>
      && r.Success?
      && var id := old(db.ArticleIdOf(slug)).value;
         var a := old(db.articles)[id];
         && db.articles == old(db.articles)[id := a.(favoritedBy := Connect(a.favoritedBy, currentUserId))]
         && r.value.favorited
         && Presents(db, id, Some(currentUserId), r.value)
    ensures db.users == old(db.users) && db.comments == old(db.comments) && db.tags == old(db.tags)
  {
    var found := db.ArticleIdOf(slug);
    if found.None? {
      return CatchNotFoundError(RecordNotFound());
    }
    var id := found.value;
    var a := db.articles[id];
    db.ReplaceArticle(id, a.(favoritedBy := Connect(a.favoritedBy, currentUserId)));
    MapPresents(db, id, Some(currentUserId));
    r := Success(MapArticleDataRes(Some(currentUserId), db.ArticleRowOf(id)));
  }

  /** `unfavorite`: disconnect the current user from the article's `favoritedBy`; absent is no error. */
  method Unfavorite(db: Database, slug: string, currentUserId: UserId) returns (r: Result<ArticleData, Error>)
    requires db.Valid()
    modifies db
    ensures db.Valid()
    ensures slug !in old(db.Slugs()) ==> r == Failure(HttpException(NOT_FOUND, "Article not found!")) && unchanged(db)
    ensures slug in old(db.Slugs()) ==>
      && r.Success?
      && var id := old(db.ArticleIdOf(slug)).value;
         var a := old(db.articles)[id];
         && db.articles == old(db.articles)[id := a.(favoritedBy := Disconnect(a.favoritedBy, currentUserId))]
         && !r.value.favorited
         && Presents(db, id, Some(currentUserId), r.value)
    ensures db.users == old(db.users) && db.comments == old(db.comments) && db.tags == old(db.tags)
  {
    var found := db.ArticleIdOf(slug);
    if found.None? {
      return CatchNotFoundError(RecordNotFound());
    }
    var id := found.value;
    var a := db.articles[id];
    db.ReplaceArticle(id, a.(favoritedBy := Disconnect(a.favoritedBy, currentUserId)));
    MapPresents(db, id, Some(currentUserId));
    r := Success(MapArticleDataRes(Some(currentUserId), db.ArticleRowOf(id)));
  }
}
