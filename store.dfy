/**
 * The database behind the Prisma client, as in-memory tables: users, articles, comments and
 * tags, keyed by autoincrement ids, with the unique columns (user name, e-mail, slug, tag name)
 * and the foreign keys the services rely on stated as the invariant `Valid()`. Many-to-many
 * relations (followers, favoriting users, an article's tags) are duplicate-free id sequences.
 */
module Store {
  import opened Wrappers
  import opened Tables
  import opened ArticleMapper
  import opened ArticleQuery

  type UserId = nat
  type ArticleId = nat
  type CommentId = nat

  /** A `User` row with its `followedBy` relation (the users following this one). */
  datatype User = User(
    email: string, username: string, password: string,
    bio: Option<string>, image: Option<string>,
    createdAt: Time, updatedAt: Option<Time>,
    followedBy: seq<UserId>)

  /** An `Article` row with its `tagList` and `favoritedBy` relations. */
  datatype Article = Article(
    slug: string, title: string, description: string, body: string,
    authorId: UserId, tagList: seq<string>, favoritedBy: seq<UserId>,
    createdAt: Time, updatedAt: Option<Time>)

  datatype Comment = Comment(body: string, authorId: UserId, articleId: ArticleId, createdAt: Time, updatedAt: Option<Time>)

  /** A user row as the client returns it without includes: every column, the password hash among them. */
  datatype UserRecord = UserRecord(
    id: UserId, email: string, username: string, password: string,
    bio: Option<string>, image: Option<string>, createdAt: Time, updatedAt: Option<Time>)

  function RecordOf(id: UserId, u: User): (r: UserRecord)
    ensures r.id == id && r.email == u.email && r.username == u.username && r.password == u.password
    ensures r.bio == u.bio && r.image == u.image && r.createdAt == u.createdAt && r.updatedAt == u.updatedAt
  {
    UserRecord(id, u.email, u.username, u.password, u.bio, u.image, u.createdAt, u.updatedAt)
  }

  /** Included relation rows `{ id }`, in relation order. */
  function IdRefs(ids: seq<nat>): seq<IdRef> {
    seq(|ids|, k requires 0 <= k < |ids| => IdRef(ids[k]))
  }

  /** Included tag rows `{ name }`, in relation order. */
  function TagRefs(names: seq<string>): seq<TagRef> {
    seq(|names|, k requires 0 <= k < |names| => TagRef(names[k]))
  }

  /** Membership among the included rows is membership in the relation. */
  lemma AmongIdRefs(ids: seq<nat>, viewer: Option<nat>)
    ensures Among(IdRefs(ids), viewer) <==> viewer.Some? && viewer.value in ids
  {
    if viewer.Some? && viewer.value in ids {
      var k :| 0 <= k < |ids| && ids[k] == viewer.value;
      assert IdRefs(ids)[k].id == viewer.value;
    }
  }

  /** The `slug` column is unique. */
  ghost predicate UniqueSlugs(m: map<ArticleId, Article>) {
    forall a, b :: a in m && b in m && m[a].slug == m[b].slug ==> a == b
  }

  function SlugsOf(m: map<ArticleId, Article>): set<string> {
    set id | id in m :: m[id].slug
  }

  lemma InsertKeepsSlugsUnique(m: map<ArticleId, Article>, id: ArticleId, a: Article)
    requires UniqueSlugs(m) && id !in m && a.slug !in SlugsOf(m)
    ensures UniqueSlugs(m[id := a])
  {
    assert forall other :: other in m ==> m[other].slug in SlugsOf(m);
  }

  lemma ReplaceKeepsSlugsUnique(m: map<ArticleId, Article>, id: ArticleId, a: Article)
    requires UniqueSlugs(m)
    requires forall other :: other in m && other != id ==> m[other].slug != a.slug
    ensures UniqueSlugs(m[id := a])
  {
  }

  /** The users table: fresh ids, unique user name and e-mail, followers without duplicates. */
  ghost predicate UsersOk(users: map<UserId, User>, nextUserId: nat) {
    && (forall id :: id in users ==> id < nextUserId)
    && (forall a, b :: a in users && b in users && users[a].username == users[b].username ==> a == b)
    && (forall a, b :: a in users && b in users && users[a].email == users[b].email ==> a == b)
    && (forall id :: id in users ==> NoDuplicates(users[id].followedBy))
  }

  /** The articles table: fresh ids, unique slug, relations without duplicates, existing tags. */
  ghost predicate ArticlesOk(articles: map<ArticleId, Article>, nextArticleId: nat, tags: set<string>) {
    && (forall id :: id in articles ==> id < nextArticleId)
    && UniqueSlugs(articles)
    && (forall id :: id in articles ==> NoDuplicates(articles[id].favoritedBy) && NoDuplicates(articles[id].tagList))
    && (forall id, t :: id in articles && t in articles[id].tagList ==> t in tags)
  }

  /** Every article's author is an existing user. */
  ghost predicate AuthorsIn(articles: map<ArticleId, Article>, userIds: set<UserId>) {
    forall id :: id in articles ==> articles[id].authorId in userIds
  }

  /** The comments table: fresh ids and an existing author. */
  ghost predicate CommentsOk(comments: map<CommentId, Comment>, nextCommentId: nat, userIds: set<UserId>) {
    && (forall id :: id in comments ==> id < nextCommentId)
    && (forall id :: id in comments ==> comments[id].authorId in userIds)
  }

  class Database {
    var users: map<UserId, User>
    var articles: map<ArticleId, Article>
    var comments: map<CommentId, Comment>
    var tags: set<string>
    var nextUserId: nat
    var nextArticleId: nat
    var nextCommentId: nat

    /**
     * The schema's constraints, each stated on the table values it is about, so that a write
     * to one table leaves the constraints on the others untouched.
     */
    ghost predicate Valid()
      reads this
    {
      && UsersOk(users, nextUserId)
      && ArticlesOk(articles, nextArticleId, tags)
      && AuthorsIn(articles, users.Keys)
      && CommentsOk(comments, nextCommentId, users.Keys)
    }

    /** An empty database. */
    constructor ()
      ensures Valid()
      ensures users == map[] && articles == map[] && comments == map[] && tags == {}
      ensures nextUserId == 0 && nextArticleId == 0 && nextCommentId == 0
    {
      users, articles, comments, tags := map[], map[], map[], {};
      nextUserId, nextArticleId, nextCommentId := 0, 0, 0;
    }

    /** `article.create`: store the row under the next id and create the tags it names that do not exist yet. */
    method InsertArticle(a: Article) returns (id: ArticleId)
      requires Valid()
      requires a.slug !in Slugs() && a.authorId in users
      requires NoDuplicates(a.favoritedBy) && NoDuplicates(a.tagList)
      modifies this
      ensures Valid()
      ensures id == old(nextArticleId) && id !in old(articles)
      ensures articles == old(articles)[id := a]
      ensures tags == old(tags) + (set t | t in a.tagList)
      ensures users == old(users) && comments == old(comments)
      ensures nextUserId == old(nextUserId) && nextCommentId == old(nextCommentId)
    {
      id := nextArticleId;
      InsertKeepsSlugsUnique(articles, id, a);
      tags := tags + (set t | t in a.tagList);
      articles := articles[id := a];
      nextArticleId := id + 1;
    }

    /** `article.update` of row `id`: the new row keeps the unique slug, an existing author and existing tags. */
    method ReplaceArticle(id: ArticleId, a: Article)
      requires Valid() && id in articles
      requires forall other :: other in articles && other != id ==> articles[other].slug != a.slug
      requires a.authorId in users && NoDuplicates(a.favoritedBy) && NoDuplicates(a.tagList)
      requires forall t :: t in a.tagList ==> t in tags
      modifies this
      ensures Valid()
      ensures articles == old(articles)[id := a]
      ensures users == old(users) && comments == old(comments) && tags == old(tags)
      ensures nextUserId == old(nextUserId) && nextArticleId == old(nextArticleId) && nextCommentId == old(nextCommentId)
    {
      ReplaceKeepsSlugsUnique(articles, id, a);
      articles := articles[id := a];
    }

    /** `user.create`: store the row under the next id. */
    method InsertUser(u: User) returns (id: UserId)
      requires Valid()
      requires forall other :: other in users ==> users[other].username != u.username && users[other].email != u.email
      requires NoDuplicates(u.followedBy)
      modifies this
      ensures Valid()
      ensures id == old(nextUserId) && id !in old(users)
      ensures users == old(users)[id := u]
      ensures articles == old(articles) && comments == old(comments) && tags == old(tags)
      ensures nextArticleId == old(nextArticleId) && nextCommentId == old(nextCommentId)
    {
      id := nextUserId;
      users := users[id := u];
      nextUserId := id + 1;
    }

    /** `user.update` of row `id`: the new row keeps user name and e-mail unique. */
    method ReplaceUser(id: UserId, u: User)
      requires Valid() && id in users
      requires forall other :: other in users && other != id ==> users[other].username != u.username && users[other].email != u.email
      requires NoDuplicates(u.followedBy)
      modifies this
      ensures Valid()
      ensures users == old(users)[id := u]
      ensures articles == old(articles) && comments == old(comments) && tags == old(tags)
      ensures nextUserId == old(nextUserId) && nextArticleId == old(nextArticleId) && nextCommentId == old(nextCommentId)
    {
      users := users[id := u];
    }

    /** The slugs of all articles. */
    function Slugs(): set<string>
      reads this
    {
      SlugsOf(articles)
    }

    /** `article.findUnique({ where: { slug } })`, as the id of the row found. */
    function ArticleIdOf(slug: string): (r: Option<ArticleId>)
      requires Valid()
      reads this
      ensures r.Some? <==> slug in Slugs()
      ensures r.Some? ==> r.value in articles && articles[r.value].slug == slug
    {
      FindKey(articles, (a: Article) => a.slug == slug, nextArticleId)
    }

    /** `user.findUnique({ where: { username } })`, as the id of the row found. */
    function UserIdOfUsername(username: string): (r: Option<UserId>)
      requires Valid()
      reads this
      ensures r.None? <==> forall id :: id in users ==> users[id].username != username
      ensures r.Some? ==> r.value in users && users[r.value].username == username
    {
      FindKey(users, (u: User) => u.username == username, nextUserId)
    }

    /** `user.findUnique({ where: { email } })`, as the id of the row found. */
    function UserIdOfEmail(email: string): (r: Option<UserId>)
      requires Valid()
      reads this
      ensures r.None? <==> forall id :: id in users ==> users[id].email != email
      ensures r.Some? ==> r.value in users && users[r.value].email == email
    {
      FindKey(users, (u: User) => u.email == email, nextUserId)
    }

    /** The ids of the users whose user name or e-mail matches, as the uniqueness check on registration finds them. */
    function UserIdsWithUsernameOrEmail(username: string, email: string): (r: seq<UserId>)
      requires Valid()
      reads this
      ensures forall id :: id in r <==> id in users && (users[id].username == username || users[id].email == email)
    {
      KeysWhere(users, (u: User) => u.username == username || u.email == email, nextUserId)
    }

    /** The author as `authorInclude` loads it. */
    function AuthorRowOf(id: UserId): (r: AuthorRow)
      requires id in users
      reads this
      ensures r.username == users[id].username && r.bio == users[id].bio && r.image == users[id].image
      ensures Ids(r.followedBy) == users[id].followedBy
    {
      var u := users[id];
      AuthorRow(u.username, u.bio, u.image, IdRefs(u.followedBy))
    }

    /** An article as `articleInclude` loads it. */
    function ArticleRowOf(id: ArticleId): (r: ArticleRow)
      requires Valid() && id in articles
      reads this
      ensures r.slug == articles[id].slug && r.title == articles[id].title
      ensures r.description == articles[id].description && r.body == articles[id].body
      ensures r.createdAt == articles[id].createdAt && r.updatedAt == articles[id].updatedAt
      ensures r.author == AuthorRowOf(articles[id].authorId)
      ensures r.tagList == TagRefs(articles[id].tagList)
      ensures Ids(r.favoritedBy) == articles[id].favoritedBy
    {
      var a := articles[id];
      ArticleRow(a.slug, a.title, a.description, a.body, a.createdAt, a.updatedAt,
                 AuthorRowOf(a.authorId), TagRefs(a.tagList), IdRefs(a.favoritedBy))
    }

    /** A comment as `commentSelect` loads it. */
    function CommentRowOf(id: CommentId): (r: CommentRow)
      requires Valid() && id in comments
      reads this
      ensures r.id == id && r.body == comments[id].body
      ensures r.createdAt == comments[id].createdAt && r.updatedAt == comments[id].updatedAt
      ensures r.author == AuthorRowOf(comments[id].authorId)
    {
      var c := comments[id];
      CommentRow(id, c.body, c.createdAt, c.updatedAt, AuthorRowOf(c.authorId))
    }

    /** The user names of the users among `ids`. */
    function UsernamesOf(ids: seq<UserId>): seq<string>
      reads this
    {
      if ids == [] then []
      else (if ids[0] in users then [users[ids[0]].username] else []) + UsernamesOf(ids[1..])
    }

    /** What the where-clauses of a list query can test about an article. */
    function FactsOf(id: ArticleId): Facts
      requires Valid() && id in articles
      reads this
    {
      var a := articles[id];
      Facts(a.tagList, users[a.authorId].username, users[a.authorId].followedBy, UsernamesOf(a.favoritedBy))
    }

    function CandidateOf(id: ArticleId): Candidate
      requires Valid() && id in articles
      reads this
    {
      Candidate(FactsOf(id), ArticleRowOf(id))
    }

    function CandidatesOf(ids: seq<ArticleId>): (r: seq<Candidate>)
      requires Valid() && forall k :: 0 <= k < |ids| ==> ids[k] in articles
      reads this
      ensures |r| == |ids|
      ensures forall k :: 0 <= k < |ids| ==> r[k] == CandidateOf(ids[k])
    {
      if ids == [] then [] else [CandidateOf(ids[0])] + CandidatesOf(ids[1..])
    }

    /** The article table in id order, as the database scans it. */
    function ArticleTable(): seq<Candidate>
      requires Valid()
      reads this
    {
      var ids := KeysBelow(articles, nextArticleId);
      assert forall k :: 0 <= k < |ids| ==> ids[k] in ids;
      CandidatesOf(ids)
    }

    /** The ids of the articles matching every clause. */
    function MatchingArticleIds(clauses: seq<Clause>): set<ArticleId>
      requires Valid()
      reads this
    {
      set id | id in articles && MatchesAll(clauses, FactsOf(id))
    }

    /** The slugs of the articles matching every clause. */
    function MatchingSlugs(clauses: seq<Clause>): set<string>
      requires Valid()
      reads this
    {
      set id | id in articles && MatchesAll(clauses, FactsOf(id)) :: articles[id].slug
    }

    /** The ids among `ids` of the articles matching every clause. */
    function MatchingAmong(clauses: seq<Clause>, ids: seq<ArticleId>): set<ArticleId>
      requires Valid()
      reads this
    {
      set id | id in ids && id in articles && MatchesAll(clauses, FactsOf(id))
    }

    lemma MatchingAmongUncons(clauses: seq<Clause>, ids: seq<ArticleId>)
      requires Valid() && ids != []
      ensures MatchingAmong(clauses, ids) ==
        MatchingAmong(clauses, ids[1..]) + (if ids[0] in articles && MatchesAll(clauses, FactsOf(ids[0])) then {ids[0]} else {})
    {
      assert forall id :: id in ids <==> id == ids[0] || id in ids[1..];
    }

    lemma FilterCandidatesUncons(clauses: seq<Clause>, ids: seq<ArticleId>)
      requires Valid() && ids != []
      requires forall k :: 0 <= k < |ids| ==> ids[k] in articles
      ensures |Filter(clauses, CandidatesOf(ids))| ==
        (if MatchesAll(clauses, FactsOf(ids[0])) then 1 else 0) + |Filter(clauses, CandidatesOf(ids[1..]))|
    {
      var cs := CandidatesOf(ids);
      assert cs[1..] == CandidatesOf(ids[1..]);
    }

    /** Filtering a scan over distinct ids keeps one row per matching article. */
    lemma {:induction false} FilterCountsMatchingIds(clauses: seq<Clause>, ids: seq<ArticleId>)
      requires Valid()
      requires forall k :: 0 <= k < |ids| ==> ids[k] in articles
      requires NoDuplicates(ids)
      ensures |Filter(clauses, CandidatesOf(ids))| == |MatchingAmong(clauses, ids)|
    {
      if ids == [] {
        assert MatchingAmong(clauses, ids) == {};
      } else {
        FilterCountsMatchingIds(clauses, ids[1..]);
        NoDuplicatesUncons(ids);
        FilterCandidatesUncons(clauses, ids);
        MatchingAmongUncons(clauses, ids);
        assert ids[0] !in MatchingAmong(clauses, ids[1..]);
      }
    }

    /** Every row the scan yields is the candidate of an article, and the scan covers every article. */
    lemma TableIsArticles(c: Candidate)
      requires Valid()
      ensures c in ArticleTable() <==> exists id :: id in articles && CandidateOf(id) == c
    {
      var ids := KeysBelow(articles, nextArticleId);
      if c in ArticleTable() {
        var k :| 0 <= k < |ids| && ArticleTable()[k] == c;
        assert ids[k] in ids;
      }
      if exists id :: id in articles && CandidateOf(id) == c {
        var id :| id in articles && CandidateOf(id) == c;
        assert id in ids;
        var k :| 0 <= k < |ids| && ids[k] == id;
        assert ArticleTable()[k] == c;
      }
    }

    /** `count({ where: { AND: clauses } })` over the article table is the number of matching articles. */
    lemma {:induction false} CountIsMatchingArticles(clauses: seq<Clause>)
      requires Valid()
      ensures Count(clauses, ArticleTable()) == |MatchingArticleIds(clauses)|
    {
      var ids := KeysBelow(articles, nextArticleId);
      assert forall k :: 0 <= k < |ids| ==> ids[k] in ids;
      FilterCountsMatchingIds(clauses, ids);
      assert MatchingAmong(clauses, ids) == MatchingArticleIds(clauses);
    }

    static lemma IncreasingHead(ids: seq<nat>)
      requires ids != []
      requires forall i, j :: 0 <= i < j < |ids| ==> ids[i] < ids[j]
      ensures forall x :: x in ids[1..] ==> ids[0] < x
    {
      forall x | x in ids[1..] ensures ids[0] < x {
        var k :| 0 <= k < |ids[1..]| && ids[1..][k] == x;
        assert ids[k + 1] == x;
      }
    }

    /** The comments attached to article `articleId`, in id order. */
    function CommentIdsOf(articleId: ArticleId): (r: seq<CommentId>)
      reads this
      ensures forall id :: id in r <==> id in comments && id < nextCommentId && comments[id].articleId == articleId
      ensures forall i, j :: 0 <= i < j < |r| ==> r[i] < r[j]
    {
      FilterIds(KeysBelow(comments, nextCommentId), articleId)
    }

    function FilterIds(ids: seq<CommentId>, articleId: ArticleId): (r: seq<CommentId>)
      reads this
      requires forall i, j :: 0 <= i < j < |ids| ==> ids[i] < ids[j]
      ensures forall id :: id in r <==> id in ids && id in comments && comments[id].articleId == articleId
      ensures forall i, j :: 0 <= i < j < |r| ==> r[i] < r[j]
    {
      if ids == [] then []
      else
        var rest := FilterIds(ids[1..], articleId);
        IncreasingHead(ids);
        assert forall k :: 0 <= k < |rest| ==> rest[k] in rest;
        if ids[0] in comments && comments[ids[0]].articleId == articleId then [ids[0]] + rest else rest
    }
  }
}
