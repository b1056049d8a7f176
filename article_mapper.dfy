/**
 * The response mappers of the article module: a loaded article or comment row (with the
 * author's follower ids, the tag names and the favoriting user ids included) becomes the
 * wire object, with `following`, `favorited` and `favoritesCount` derived from the id lists.
 */
module ArticleMapper {
  import opened Wrappers

  type Time = nat

  /** An included relation row that only selects `id`. */
  datatype IdRef = IdRef(id: nat)
  /** An included tag row that only selects `name`. */
  datatype TagRef = TagRef(name: string)

  /** The author as `authorInclude` selects it. */
  datatype AuthorRow = AuthorRow(username: string, bio: Option<string>, image: Option<string>, followedBy: seq<IdRef>)

  /** An article row loaded with `articleInclude`. */
  datatype ArticleRow = ArticleRow(
    slug: string, title: string, description: string, body: string,
    createdAt: Time, updatedAt: Option<Time>,
    author: AuthorRow, tagList: seq<TagRef>, favoritedBy: seq<IdRef>)

  /** A comment row loaded with `commentSelect`. */
  datatype CommentRow = CommentRow(id: nat, body: string, createdAt: Time, updatedAt: Option<Time>, author: AuthorRow)

  /** The author part of a response: the selected author fields without `followedBy`, plus `following`. */
  datatype AuthorData = AuthorData(username: string, bio: Option<string>, image: Option<string>, following: bool)

  datatype ArticleData = ArticleData(
    slug: string, title: string, description: string, body: string,
    createdAt: Time, updatedAt: Option<Time>,
    author: AuthorData, tagList: seq<string>, favorited: bool, favoritesCount: nat)

  datatype CommentData = CommentData(id: nat, createdAt: Time, body: string, author: AuthorData)

  /** The ids of the referenced users, in order. */
  function Ids(refs: seq<IdRef>): seq<nat> {
    seq(|refs|, k requires 0 <= k < |refs| => refs[k].id)
  }

  /** Whether the viewer's id is among `ids`; an absent viewer is never included. */
  function Includes(ids: seq<nat>, viewer: Option<nat>): bool {
    viewer.Some? && viewer.value in ids
  }

  /** `viewer` is one of the ids of `refs`. */
  ghost predicate Among(refs: seq<IdRef>, viewer: Option<nat>) {
    viewer.Some? && exists k :: 0 <= k < |refs| && refs[k].id == viewer.value
  }

  /** The membership test on the mapped id list is membership of the viewer among the rows. */
  lemma IncludesIds(refs: seq<IdRef>, viewer: Option<nat>)
    ensures Includes(Ids(refs), viewer) <==> Among(refs, viewer)
  {
    if viewer.Some? && viewer.value in Ids(refs) {
      var k :| 0 <= k < |Ids(refs)| && Ids(refs)[k] == viewer.value;
      assert refs[k].id == viewer.value;
    }
    if Among(refs, viewer) {
      var k :| 0 <= k < |refs| && refs[k].id == viewer.value;
      assert Ids(refs)[k] == viewer.value;
    }
  }

  /** The author's profile as the response shows it: the stored fields and whether the viewer follows them. */
  function MapAuthor(viewer: Option<nat>, author: AuthorRow): (r: AuthorData)
    ensures r.username == author.username && r.bio == author.bio && r.image == author.image
    ensures r.following <==> Among(author.followedBy, viewer)
  {
    IncludesIds(author.followedBy, viewer);
    AuthorData(author.username, author.bio, author.image, Includes(Ids(author.followedBy), viewer))
  }

  /** `mapArticleDataRes` */
  function MapArticleDataRes(viewer: Option<nat>, a: ArticleRow): (r: ArticleData)
    ensures r.slug == a.slug && r.title == a.title && r.description == a.description && r.body == a.body
    ensures r.createdAt == a.createdAt && r.updatedAt == a.updatedAt
    ensures r.author.username == a.author.username && r.author.bio == a.author.bio && r.author.image == a.author.image
    ensures r.author.following <==> Among(a.author.followedBy, viewer)
    ensures |r.tagList| == |a.tagList| && forall k :: 0 <= k < |a.tagList| ==> r.tagList[k] == a.tagList[k].name
    ensures r.favorited <==> Among(a.favoritedBy, viewer)
    ensures r.favoritesCount == |a.favoritedBy|
    ensures viewer.None? ==> !r.favorited && !r.author.following
  {
    IncludesIds(a.favoritedBy, viewer);
    ArticleData(
      a.slug, a.title, a.description, a.body, a.createdAt, a.updatedAt,
      MapAuthor(viewer, a.author),
      seq(|a.tagList|, k requires 0 <= k < |a.tagList| => a.tagList[k].name),
      Includes(Ids(a.favoritedBy), viewer),
      |a.favoritedBy|)
  }

  /** `mapCommentDataRes` */
  function MapCommentDataRes(viewer: Option<nat>, c: CommentRow): (r: CommentData)
    ensures r.id == c.id && r.createdAt == c.createdAt && r.body == c.body
    ensures r.author.username == c.author.username && r.author.bio == c.author.bio && r.author.image == c.author.image
    ensures r.author.following <==> Among(c.author.followedBy, viewer)
    ensures viewer.None? ==> !r.author.following
  {
    CommentData(c.id, c.createdAt, c.body, MapAuthor(viewer, c.author))
  }

  /**
   * The fixture of the controller test: the author is followed by user 3 and the article is
   * favorited by user 1; viewed by user 3 it is `following`, not `favorited`, with one favorite.
   */
  lemma ControllerFixture()
    ensures var row := ArticleRow("test-article", "Test Article", "Test Article Description", "Body of test article",
                                   0, Some(0),
                                   AuthorRow("username", Some("Users's bio"), Some("Image of user"), [IdRef(3)]),
                                   [TagRef("Regular animals"), TagRef("Tropical animals")], [IdRef(1)]);
            var r := MapArticleDataRes(Some(3), row);
            r.author.following && !r.favorited && r.favoritesCount == 1
              && r.tagList == ["Regular animals", "Tropical animals"]
  {
    var row := ArticleRow("test-article", "Test Article", "Test Article Description", "Body of test article",
                          0, Some(0),
                          AuthorRow("username", Some("Users's bio"), Some("Image of user"), [IdRef(3)]),
                          [TagRef("Regular animals"), TagRef("Tropical animals")], [IdRef(1)]);
    assert Ids(row.favoritedBy) == [1];
    assert Ids(row.author.followedBy) == [3];
  }
}
