/**
 * The list-query builders of the article module: the where-clauses built from the query
 * keys that are present, the `findMany` arguments `listQuery` assembles, and the meaning the
 * database gives them: keep matching articles, order by `createdAt` descending, skip, take.
 */
module ArticleQuery {
  import opened Wrappers
  import opened ArticleMapper

  /** The query object of the list endpoints; `Some` means the key is present (`'tag' in query`). */
  datatype ListQueryParams = ListQueryParams(
    tag: Option<string>, author: Option<string>, favorited: Option<string>,
    limit: Option<nat>, offset: Option<nat>)

  /** One element of the `AND` array of a `findMany` where-object. */
  datatype Clause =
    | TagSome(name: string)                 // { tagList: { some: { name } } }
    | AuthorUsernameEquals(username: string) // { author: { username: { equals } } }
    | FavoritedBySome(username: string)      // { favoritedBy: { some: { username } } }
    | AuthorFollowedBySome(id: nat)          // { author: { followedBy: { some: { id } } } }

  /** The arguments `listQuery` builds: `where: { AND }`, optional `take` and `skip`; the order is always `createdAt: 'desc'`. */
  datatype FindManyArgs = FindManyArgs(and: seq<Clause>, take: Option<nat>, skip: Option<nat>)

  /** What the database knows about an article that a clause can test. */
  datatype Facts = Facts(
    tagNames: seq<string>, authorUsername: string,
    authorFollowedBy: seq<nat>, favoritedByUsernames: seq<string>)

  /** A row of the article table: the facts the where-clauses test and the row `findMany` returns. */
  datatype Candidate = Candidate(facts: Facts, row: ArticleRow)

  /** The number of filter keys present in the query. */
  function PresentFilterKeys(q: ListQueryParams): nat {
    (if q.tag.Some? then 1 else 0) + (if q.author.Some? then 1 else 0) + (if q.favorited.Some? then 1 else 0)
  }

  /** The clauses `createListWhereClause` produces, as one expression. */
  function WhereClauses(q: ListQueryParams): (r: seq<Clause>)
    ensures |r| == PresentFilterKeys(q)
    ensures forall c :: c in r <==>
      || (q.tag.Some? && c == TagSome(q.tag.value))
      || (q.author.Some? && c == AuthorUsernameEquals(q.author.value))
      || (q.favorited.Some? && c == FavoritedBySome(q.favorited.value))
  {
    (if q.tag.Some? then [TagSome(q.tag.value)] else [])
    + (if q.author.Some? then [AuthorUsernameEquals(q.author.value)] else [])
    + (if q.favorited.Some? then [FavoritedBySome(q.favorited.value)] else [])
  }

  /** `createListWhereClause`: push one clause per present key, in the order tag, author, favorited. */
  method CreateListWhereClause(query: ListQueryParams) returns (queries: seq<Clause>)
    ensures queries == WhereClauses(query)
    ensures |queries| == PresentFilterKeys(query)
    ensures query.tag.Some? ==> queries[0] == TagSome(query.tag.value)
    ensures query.favorited.Some? ==> queries[|queries| - 1] == FavoritedBySome(query.favorited.value)
  {
    queries := [];
    if query.tag.Some? {
      queries := queries + [TagSome(query.tag.value)];
    }
    if query.author.Some? {
      queries := queries + [AuthorUsernameEquals(query.author.value)];
    }
    if query.favorited.Some? {
      queries := queries + [FavoritedBySome(query.favorited.value)];
    }
  }

  /** `listQuery(whereClause, query)` */
  function ListQuery(whereClause: seq<Clause>, query: ListQueryParams): (r: FindManyArgs)
    ensures r.and == whereClause
    ensures r.take.Some? <==> query.limit.Some?
    ensures r.skip.Some? <==> query.offset.Some?
    ensures r.take.Some? ==> r.take.value == query.limit.value
    ensures r.skip.Some? ==> r.skip.value == query.offset.value
  {
    FindManyArgs(whereClause, query.limit, query.offset)
  }

  // The meaning of the where-clauses.

  predicate Holds(c: Clause, f: Facts) {
    match c
    case TagSome(name) => name in f.tagNames
    case AuthorUsernameEquals(username) => f.authorUsername == username
    case FavoritedBySome(username) => username in f.favoritedByUsernames
    case AuthorFollowedBySome(id) => id in f.authorFollowedBy
  }

  /** `{ AND: clauses }` holds when every clause does; `AND: []` holds of every article. */
  predicate MatchesAll(clauses: seq<Clause>, f: Facts) {
    forall k :: 0 <= k < |clauses| ==> Holds(clauses[k], f)
  }

  /** An article matches the list filter exactly when it satisfies every filter key that is present. */
  lemma WhereClausesMeaning(q: ListQueryParams, f: Facts)
    ensures MatchesAll(WhereClauses(q), f) <==>
      && (q.tag.Some? ==> q.tag.value in f.tagNames)
      && (q.author.Some? ==> f.authorUsername == q.author.value)
      && (q.favorited.Some? ==> q.favorited.value in f.favoritedByUsernames)
  {
    var w := WhereClauses(q);
    var t := if q.tag.Some? then 1 else 0;
    var a := if q.author.Some? then 1 else 0;
    if q.tag.Some? {
      assert w[0] == TagSome(q.tag.value);
    }
    if q.author.Some? {
      assert w[t] == AuthorUsernameEquals(q.author.value);
    }
    if q.favorited.Some? {
      assert w[t + a] == FavoritedBySome(q.favorited.value);
    }
  }

  /** The rank of a clause in the order `createListWhereClause` pushes them. */
  function Rank(c: Clause): nat {
    match c
    case TagSome(_) => 0
    case AuthorUsernameEquals(_) => 1
    case FavoritedBySome(_) => 2
    case AuthorFollowedBySome(_) => 3
  }

  /** The clauses always come in the order tag, author, favorited, each at most once. */
  lemma WhereClausesOrdered(q: ListQueryParams)
    ensures forall i, j :: 0 <= i < j < |WhereClauses(q)| ==> Rank(WhereClauses(q)[i]) < Rank(WhereClauses(q)[j])
  {
  }

  // The database side of `findMany` and `count`.

  /** Keep the rows matching every clause, in table order. */
  function Filter(clauses: seq<Clause>, table: seq<Candidate>): (r: seq<Candidate>)
    ensures |r| <= |table|
    ensures forall c :: c in r <==> c in table && MatchesAll(clauses, c.facts)
  {
    if table == [] then []
    else (if MatchesAll(clauses, table[0].facts) then [table[0]] else []) + Filter(clauses, table[1..])
  }

  lemma {:induction false} FilterEmptyClauses(table: seq<Candidate>)
    ensures Filter([], table) == table
  {
    if table != [] {
      FilterEmptyClauses(table[1..]);
    }
  }

  predicate SortedByCreatedAtDesc(s: seq<Candidate>) {
    forall i, j :: 0 <= i < j < |s| ==> s[i].row.createdAt >= s[j].row.createdAt
  }

  function InsertByCreatedAtDesc(c: Candidate, s: seq<Candidate>): (r: seq<Candidate>)
    requires SortedByCreatedAtDesc(s)
    ensures SortedByCreatedAtDesc(r)
    ensures multiset(r) == multiset(s) + multiset{c}
    ensures |r| == |s| + 1
    ensures s != [] ==> r[0] == c || r[0] == s[0]
  {
    if s == [] || c.row.createdAt >= s[0].row.createdAt then [c] + s
    else
      var rest := InsertByCreatedAtDesc(c, s[1..]);
      assert s == [s[0]] + s[1..];
      [s[0]] + rest
  }

  /** `orderBy: { createdAt: 'desc' }` (a stable insertion sort: equal timestamps keep table order). */
  function SortByCreatedAtDesc(s: seq<Candidate>): (r: seq<Candidate>)
    ensures SortedByCreatedAtDesc(r)
    ensures multiset(r) == multiset(s)
  {
    if s == [] then []
    else
      assert s == [s[0]] + s[1..];
      InsertByCreatedAtDesc(s[0], SortByCreatedAtDesc(s[1..]))
  }

  /** Where the page window starts in `n` rows: at `skip`, or past the end when `skip` exceeds them. */
  function PageStart(n: nat, skip: Option<nat>): (from: nat)
    ensures from <= n
    ensures skip.None? ==> from == 0
    ensures skip.Some? && skip.value <= n ==> from == skip.value
    ensures skip.Some? && skip.value > n ==> from == n
  {
    if skip.None? then 0 else if skip.value < n then skip.value else n
  }

  /** `skip`, then `take`, on the ordered rows: a contiguous slice. */
  function Page<T>(s: seq<T>, skip: Option<nat>, take: Option<nat>): (r: seq<T>)
    ensures skip.None? && take.None? ==> r == s
    ensures PageStart(|s|, skip) + |r| <= |s|
    ensures r == s[PageStart(|s|, skip)..PageStart(|s|, skip) + |r|]
    ensures take.None? ==> |r| == |s| - PageStart(|s|, skip)
    ensures take.Some? && take.value <= |s| - PageStart(|s|, skip) ==> |r| == take.value
    ensures take.Some? && take.value > |s| - PageStart(|s|, skip) ==> |r| == |s| - PageStart(|s|, skip)
  {
    var rest := if skip.Some? then (if skip.value < |s| then s[skip.value..] else []) else s;
    if take.Some? && take.value < |rest| then rest[..take.value] else rest
  }

  /** The rows matching every clause, newest first: what `findMany` pages through. */
  function NewestFirst(clauses: seq<Clause>, table: seq<Candidate>): (r: seq<Candidate>)
    ensures SortedByCreatedAtDesc(r)
    ensures multiset(r) == multiset(Filter(clauses, table))
    ensures |r| == Count(clauses, table)
    ensures forall c :: c in r <==> c in table && MatchesAll(clauses, c.facts)
  {
    var r := SortByCreatedAtDesc(Filter(clauses, table));
    assert |r| == |multiset(r)| == |Filter(clauses, table)|;
    assert forall c :: c in r <==> c in multiset(Filter(clauses, table));
    r
  }

  /**
   * `findMany(args)` over a table: the matching rows newest first, from the offset on, at most
   * `take` of them; without `skip` and `take`, every matching row.
   */
  function FindMany(args: FindManyArgs, table: seq<Candidate>): (r: seq<Candidate>)
    ensures IsPageOf(r, NewestFirst(args.and, table), args.skip, args.take)
    ensures forall c :: c in r ==> c in table && MatchesAll(args.and, c.facts)
    ensures SortedByCreatedAtDesc(r)
    ensures args.skip.None? && args.take.None? ==> r == NewestFirst(args.and, table)
  {
    var sorted := NewestFirst(args.and, table);
    var page := Page(sorted, args.skip, args.take);
    PageOfSorted(args, table, sorted, page);
    page
  }

  /**
   * `r` is the window of `s` that `skip` and `take` select: it starts at the offset (or at the end
   * when the offset is past it) and holds `take` rows, or all remaining rows when fewer are left.
   */
  ghost predicate IsPageOf<T>(r: seq<T>, s: seq<T>, skip: Option<nat>, take: Option<nat>) {
    var from := PageStart(|s|, skip);
    && from + |r| <= |s|
    && r == s[from..from + |r|]
    && (take.None? ==> |r| == |s| - from)
    && (take.Some? && take.value <= |s| - from ==> |r| == take.value)
    && (take.Some? && take.value > |s| - from ==> |r| == |s| - from)
  }

  lemma PageOfSorted(args: FindManyArgs, table: seq<Candidate>, sorted: seq<Candidate>, page: seq<Candidate>)
    requires sorted == NewestFirst(args.and, table)
    requires page == Page(sorted, args.skip, args.take)
    ensures IsPageOf(page, sorted, args.skip, args.take)
    ensures forall c :: c in page ==> c in table && MatchesAll(args.and, c.facts)
    ensures SortedByCreatedAtDesc(page)
  {
    SliceOfSorted(sorted, page, PageStart(|sorted|, args.skip));
  }

  lemma SliceOfSorted(s: seq<Candidate>, r: seq<Candidate>, from: nat)
    requires SortedByCreatedAtDesc(s)
    requires from + |r| <= |s| && r == s[from..from + |r|]
    ensures SortedByCreatedAtDesc(r)
    ensures forall c :: c in r ==> c in s
  {
    forall c | c in r ensures c in s {
      var k :| 0 <= k < |r| && r[k] == c;
      assert s[from + k] == c;
    }
  }

  /** `count({ where: { AND: clauses } })` */
  function Count(clauses: seq<Clause>, table: seq<Candidate>): (n: nat)
    ensures n <= |table|
    ensures clauses == [] ==> n == |table|
  {
    FilterEmptyClauses(table);
    |Filter(clauses, table)|
  }
}
