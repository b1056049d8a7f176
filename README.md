# RealWorld blog backend — a Dafny model of its service logic

This project models the service layer of a NestJS/Prisma implementation of the
RealWorld ("Conduit") blogging API, with its rules proved:

- articles with unique slugs generated from their titles;
- the author, tag, favourite and follower relations;
- comments;
- user registration, login and profile update;
- the filtered, paged article list and the personal feed;
- the two helpers that translate Prisma's "record not found" error (code
  `P2025`) into HTTP 404;
- the validation-error map that the global validation pipe returns with
  status 422.

The Prisma tables are a class `Store.Database`. It holds one `map` per table,
keyed by autoincrement id, plus the set of tag names and the next id of each
table. `Database.Valid()` states the database constraints the services rely
on:

- unique slug, user name and e-mail;
- a relation never lists a user twice;
- every author and tag exists;
- ids are below the table's counter.

Services that change the database are `method`s with `modifies db`. They state
the whole new state of each table and keep `Valid()`. Read-only services are
functions that `reads db`.

Prisma's declarative `where` objects are data (`ArticleQuery.Clause`) with a
meaning (`ArticleQuery.Holds`). `findMany` is the pipeline filter → sort by
`createdAt` descending → skip → take (`ArticleQuery.FindMany`).

The slug loop of `generateSlug` is an imperative `while` loop. It is proved to
stop on the first free candidate: `createSlug(title)`, then
`createSlug(title + " 1")`, `createSlug(title + " 2")`, …. Each candidate is a
distinct string, which `Slugify.CandidateInjective` proves, so the loop ends
once it has run past the finitely many slugs already taken.

The modules follow the source files:

- `Slugify` and `ArticleService` model `article.service.ts`;
- `ArticleMapper` models `article.mapper.ts`;
- `ArticleQuery` models `article.query.ts`;
- `ProfileService`, `AuthService` and `UserService` model the profile, auth
  and user services;
- `NotFoundCatch` and `PrismaNotFoundCatch` model the two catch helpers;
- `Validation` models the exception factory in `main.ts`;
- `Wrappers`, `Errors`, `Tables` and `Store` are shared definitions.

`Scenarios` holds end-to-end request sequences of the API, proved from the
operations' contracts alone: registering the same user twice, logging in with
an unknown e-mail or a wrong password, creating an article from a title,
favouriting an article twice, and following a user twice.

Where the documented behaviour of the API and the code disagree, the model
follows the code. The one exception is slug generation, where the code as
written makes every article creation fail (see "## Findings"). There the model
carries both the code as written and the evidently intended version, and the
other operations use the intended one. The other disagreements:

- `createSlug` turns each single space into `-`. Runs of whitespace are not
  collapsed, and other whitespace is deleted.
- A registration conflict is 400 "Username and email must be unique!", not
  422.
- Registration, the current-user read and user update return the full user
  row, password hash included.
- Login with an unknown e-mail fails 404 "Entity not found!". This comes from
  the client's default `rejectOnNotFound`; it is not a uniform 401. A wrong
  password gives 401 "Invalid password!" (but see `AuthService.Login` under
  "## Left out").
- Deleting a comment is not gated on its author.
- The article list has no default limit or offset. `take` and `skip` are set
  only when the `limit` and `offset` keys are present.
- Following one's own user name is accepted.

## Model

| member | source | states |
|---|---|---|
| `Tables.Connect` | src/api/article/article.service.ts:251-255 | Prisma `connect` on a relation: the result holds exactly the old members plus `x`; nothing changes if `x` is present; no duplicates are introduced |
| `Tables.Disconnect` | src/api/article/article.service.ts:270-274 | Prisma `disconnect`: the result holds exactly the old members other than `x`; nothing changes when `x` is absent; the length drops by one when it was present |
| `Tables.ConnectAll` | src/api/article/article.service.ts:83-94 | `connectOrCreate` of a list of tags: the members are the old ones plus every name of the list, without duplicates |
| `Tables.FindKey` | src/shared/prisma/prisma.service.ts:24-26 | a unique lookup returns a key whose row satisfies the predicate; `None` means no row below the bound does |
| `Tables.KeysBelow` | src/api/article/article.service.ts:29 | a table scan: exactly the keys below the bound, in increasing order |
| `Tables.KeysWhere` | src/api/user/auth/auth.service.ts:31-42 | a `findMany` with a `where`: exactly the keys whose rows satisfy the predicate, in increasing order |
| `Tables.NoDuplicatesUncons` | src/api/article/article.service.ts:251-255 | a sequence is duplicate-free iff its head is not in its tail and its tail is duplicate-free |
| `Slugify.CreateSlugIsSlug` | src/api/article/article.service.ts:140-145 | every slug uses only `a-z`, `0-9`, `_` and `-` |
| `Slugify.ToLowerCase` | src/api/article/article.service.ts:142 | same length; no upper-case ASCII letter is left; every other character is kept; each upper-case letter becomes its lower-case form |
| `Slugify.ReplaceSpaces` | src/api/article/article.service.ts:143 | same length; no space is left; each space becomes one `-`; every other character is kept |
| `Slugify.StripNonWord` | src/api/article/article.service.ts:144 | never longer; a character occurs in the result iff it occurs in the input and is a word character or `-` |
| `Slugify.CreateSlug` | src/api/article/article.service.ts:140-145 | the result is a slug (only `a-z`, `0-9`, `_` and `-`) and is no longer than the title |
| `Slugify.CreateSlugIdempotent` | src/api/article/article.service.ts:140-145 | slugifying a slug changes nothing |
| `Slugify.CreateSlugFixesSlugs` | src/api/article/article.service.ts:140-145 | a string already made of slug characters is its own slug |
| `Slugify.CreateSlugAppend` | src/api/article/article.service.ts:140-145 | the transform works character by character: the slug of `a + b` is the slug of `a` followed by that of `b` |
| `Slugify.CreateSlugOfChar` | src/api/article/article.service.ts:141-144 | one character: lower-case ASCII letters, digits, `_` and `-` stay; an upper-case letter becomes lower case; a space becomes `-`; anything else is dropped |
| `Slugify.CreateSlugUncons` | src/api/article/article.service.ts:140-145 | the slug of a non-empty title is the slug of its first character followed by the slug of the rest |
| `Slugify.StripNonWordAppend` | src/api/article/article.service.ts:144 | deleting non-word characters distributes over concatenation |
| `Slugify.StripNonWordIsSlug` | src/api/article/article.service.ts:144 | deleting non-word characters from text without upper-case letters leaves only slug characters |
| `Slugify.StripNonWordKeepsSlug` | src/api/article/article.service.ts:144 | deleting non-word characters leaves a slug unchanged |
| `Slugify.DragonSlug` | src/api/article/article.service.ts:140-145 | "How to train your dragon" becomes "how-to-train-your-dragon" |
| `Slugify.NatToString` | src/api/article/article.service.ts:135 | the decimal text of the counter is non-empty and made of digits |
| `Slugify.ParseNatToString` | src/api/article/article.service.ts:135 | reading the decimal text of a counter back gives the counter |
| `Slugify.NatToStringInjective` | src/api/article/article.service.ts:135 | different counters give different decimal texts |
| `Slugify.CandidateWithSuffix` | src/api/article/article.service.ts:135 | the candidate for counter `k >= 1` is the slug of the title, then `-`, then the digits of `k` |
| `Slugify.CandidateInjective` | src/api/article/article.service.ts:132-135 | the candidates tried for one title are pairwise different |
| `Slugify.TriedGrows` | src/api/article/article.service.ts:134-136 | each pass of the loop adds one new candidate to those tried; while that candidate is taken, the taken slugs not yet tried strictly shrink, which bounds the loop |
| `ArticleMapper.IncludesIds` | src/api/article/article.mapper.ts:42 | `map(id).includes(currentUserId)` holds iff the viewer is logged in and among the related ids |
| `ArticleMapper.MapAuthor` | src/api/article/article.mapper.ts:29-40 | the author's user name, bio and image are copied; `following` is true iff the viewer is among the author's followers |
| `ArticleMapper.MapArticleDataRes` | src/api/article/article.mapper.ts:12-45 | slug, title, description, body and timestamps are copied; tags become their names, in order; `favorited` iff the viewer is among `favoritedBy`; `favoritesCount` is the length of `favoritedBy`; an anonymous viewer neither favours nor follows |
| `ArticleMapper.MapCommentDataRes` | src/api/article/article.mapper.ts:54-78 | id, creation time and body are copied; the author's `following` uses the same membership rule |
| `ArticleMapper.ControllerFixture` | src/api/article/article.controller.spec.ts:104-130 | the test's article, followed by user 3 and favourited by user 1, is shown to viewer 3 as followed, not favourited, with one favourite |
| `ArticleQuery.WhereClauses` | src/api/article/article.query.ts:52-82 | one clause per present key, so the length is the number of keys present; a clause occurs iff it is the tag, author or favorited clause of a present key |
| `ArticleQuery.Holds` | src/api/article/article.query.ts:54-79 | the meaning of one where-clause: the article has the tag, its author has the user name, a user of that name favourited it, or the current user follows its author |
| `ArticleQuery.CreateListWhereClause` | src/api/article/article.query.ts:52-82 | one clause per present key (tag, author, favorited), in that order, so the length is the number of keys present |
| `ArticleQuery.WhereClausesMeaning` | src/api/article/article.query.ts:54-79 | an article matches all clauses iff it has a tag of that name, its author has that user name, and a user of that name favourited it, for each key present |
| `ArticleQuery.WhereClausesOrdered` | src/api/article/article.query.ts:52-82 | the tag clause always comes before the author clause, which comes before the favorited clause |
| `ArticleQuery.ListQuery` | src/api/article/article.query.ts:40-50 | the clauses are ANDed; `take` is set iff `limit` is present, `skip` iff `offset` is present |
| `ArticleQuery.Filter` | src/api/article/article.query.ts:40-43 | the result holds exactly the rows that satisfy every clause |
| `ArticleQuery.FilterEmptyClauses` | src/api/article/article.query.ts:53 | an empty AND keeps every row |
| `ArticleQuery.InsertByCreatedAtDesc` | src/api/article/article.query.ts:47-49 | inserting into a newest-first list keeps it newest first and is a permutation of the list plus the row |
| `ArticleQuery.SortByCreatedAtDesc` | src/api/article/article.query.ts:47-49 | the result is newest first and a permutation of the input |
| `ArticleQuery.NewestFirst` | src/api/article/article.query.ts:40-50 | the matching rows, sorted newest first: a permutation of the filtered table, as many as the count, and a row occurs iff it is in the table and matches every clause |
| `ArticleQuery.PageStart` | src/api/article/article.query.ts:46 | the page starts at 0 without `skip`, at `skip` when it is within the list, and at the end of the list when `skip` is beyond it |
| `ArticleQuery.Page` | src/api/article/article.query.ts:45-46 | the page is the slice of the list from its start; without `take` it runs to the end; with `take` it has `take` rows, or every row left when fewer remain; without either key it is the whole list |
| `ArticleQuery.FindMany` | src/api/article/article.query.ts:40-50 | the rows returned are exactly the window that `skip` and `take` select of the matching rows sorted newest first; each matches every clause; without `skip` and `take` they are all the matches |
| `ArticleQuery.PageOfSorted` | src/api/article/article.query.ts:40-50 | the page of the sorted matches is the window `skip` and `take` select, is newest first and holds only matching rows |
| `ArticleQuery.SliceOfSorted` | src/api/article/article.query.ts:45-49 | a contiguous slice of a newest-first list is newest first and drawn from the list |
| `ArticleQuery.Count` | src/api/article/article.service.ts:31-33 | `count` never exceeds the table, and with no clauses it is the size of the table |
| `Store.RecordOf` | src/api/user/auth/auth.service.ts:51-58 | the returned user record copies every stored column, the password hash included |
| `Store.AmongIdRefs` | src/api/article/article.mapper.ts:39 | a viewer is among the id references of a relation iff the viewer is logged in and in the relation |
| `Store.InsertKeepsSlugsUnique` | src/api/article/article.service.ts:75-98 | adding a row with a fresh id and an unused slug keeps slugs unique |
| `Store.ReplaceKeepsSlugsUnique` | src/api/article/article.service.ts:110-123 | overwriting a row with a slug no other row has keeps slugs unique |
| `Store.Database.constructor` | src/shared/prisma/prisma.service.ts:22-28 | the database starts empty and valid |
| `Store.Database.InsertArticle` | src/api/article/article.service.ts:75-98 | `article.create`: the row is stored under the next id, its tags are added to the tag table, the other tables are unchanged, and the constraints hold |
| `Store.Database.ReplaceArticle` | src/api/article/article.service.ts:110-123 | `article.update`: only that row changes, and the constraints hold |
| `Store.Database.InsertUser` | src/api/user/auth/auth.service.ts:51-57 | `user.create`: the row is stored under the next id and nothing else changes |
| `Store.Database.ReplaceUser` | src/api/user/user.service.ts:46-55 | `user.update`: only that row changes, and the constraints hold |
| `Store.Database.ArticleIdOf` | src/api/article/article.service.ts:60-65 | `findUnique` by slug finds a row iff the slug exists, and the row found has that slug |
| `Store.Database.UserIdOfUsername` | src/api/profile/profile.service.ts:25-28 | `findUnique` by user name finds a row iff one has that name |
| `Store.Database.UserIdOfEmail` | src/api/user/auth/auth.service.ts:69-73 | `findUnique` by e-mail finds a row iff one has that e-mail |
| `Store.Database.UserIdsWithUsernameOrEmail` | src/api/user/auth/auth.service.ts:31-42 | the `OR` query returns exactly the users with that user name or that e-mail |
| `Store.Database.AuthorRowOf` | src/api/article/article.query.ts:1-12 | the author as the include loads it: user name, bio and image copied, and the ids of exactly the followers |
| `Store.Database.ArticleRowOf` | src/api/article/article.query.ts:26-30 | the article as the include loads it: every column copied, the author as loaded, the tag names in order and the ids of exactly the users who favourited it |
| `Store.Database.CommentRowOf` | src/api/article/article.query.ts:32-38 | the comment as the select loads it: id, body and timestamps copied, and the author as loaded |
| `Store.Database.CandidatesOf` | src/api/article/article.service.ts:29 | one query row per article id, in order |
| `Store.Database.TableIsArticles` | src/api/article/article.service.ts:29 | the rows `findMany` scans are exactly the stored articles |
| `Store.Database.MatchingAmongUncons` | src/api/article/article.service.ts:31-33 | splits the matching ids of a list of article ids into its head and its tail |
| `Store.Database.FilterCandidatesUncons` | src/api/article/article.service.ts:31-33 | splits the filtered rows of a list of article ids into its head and its tail |
| `Store.Database.FilterCountsMatchingIds` | src/api/article/article.service.ts:31-33 | over distinct ids, the number of rows the filter keeps is the number of matching ids |
| `Store.Database.CountIsMatchingArticles` | src/api/article/article.service.ts:31-33 | `article.count` with the where clause is the number of stored articles that match it |
| `Store.Database.CommentIdsOf` | src/api/article/article.service.ts:205-212 | exactly the comments attached to the article, in id order |
| `Store.Database.FilterIds` | src/api/article/article.service.ts:205-212 | keeps exactly the listed comment ids attached to the article, in order |
| `NotFoundCatch.CatchNotFoundError` | src/shared/prisma.error.catch.ts:4-11 | always throws; P2025 becomes 404 "Article not found!"; any other error is rethrown unchanged |
| `NotFoundCatch.CatchNotFoundErrorIdempotent` | src/shared/prisma.error.catch.ts:4-11 | catching again what it threw changes nothing |
| `NotFoundCatch.CatchNotFoundErrorStatus` | src/shared/prisma.error.catch.ts:5-8 | what it throws is a 404 exactly when the error was P2025 or already a 404 |
| `PrismaNotFoundCatch.CatchPrismaNotFoundError` | src/shared/prisma/prisma.error.catch.ts:4-9 | always throws; P2025 becomes 404 "Entity not found!"; any other code rethrows the known error |
| `PrismaNotFoundCatch.OutcomeDependsOnlyOnCode` | src/shared/prisma/prisma.error.catch.ts:4-5 | two errors with the same code are translated alike |
| `PrismaNotFoundCatch.RethrowTranslated` | src/api/user/user.service.ts:58-63 | a known P2025 error becomes 404 "Entity not found!"; every other error passes through |
| `ArticleService.FirstCandidateWhenFree` | src/api/article/article.service.ts:131-138 | when the plain slug of the title is free, it is the slug generated |
| `ArticleService.GeneratedSlugUnique` | src/api/article/article.service.ts:131-138 | the slug generated is determined by the title and the slugs taken |
| `ArticleService.GenerateSlug` | src/api/article/article.service.ts:131-138 | intended version: the loop ends on the first candidate not taken, having tried every earlier candidate and found it taken |
| `ArticleService.IsSlugUnique` | src/api/article/article.service.ts:147-153 | intended version: true iff no article has the slug |
| `ArticleService.IsSlugUniqueAsWritten` | src/api/article/article.service.ts:147-153 | as written: a taken slug gives `false`; a free slug is rejected by the client's default `rejectOnNotFound` with 404 "Entity not found!" |
| `ArticleService.IsSlugUniqueRejectsFreeSlug` | src/api/article/article.service.ts:147-153 | the check as written rejects exactly where the intended check answers free, and it never answers `true` |
| `ArticleService.GenerateSlugAsWritten` | src/api/article/article.service.ts:131-138 | as written: for every title and every database, the loop stops at the first free candidate with the 404 of its lookup, so no slug is returned |
| `ArticleService.MapPresents` | src/api/article/article.service.ts:67 | mapping a loaded article reproduces its stored columns, tag names and favourite count, and the viewer's favourite and follow flags |
| `ArticleService.MapAll` | src/api/article/article.service.ts:35 | maps each row of the page, in order |
| `ArticleService.PageFromMatchingArticles` | src/api/article/article.service.ts:29-35 | every article on the page has a slug of a matching stored article |
| `ArticleService.MapPage` | src/api/article/article.service.ts:29-35 | mapping a window of the sorted matches shows, at entry `k`, the match at position offset + `k`, with the window's length |
| `ArticleService.AllMatchesListed` | src/api/article/article.service.ts:29-35 | every stored article that matches the clauses has its row among the newest-first matches |
| `ArticleService.WholePage` | src/api/article/article.service.ts:29-35 | without limit and offset the page has one entry per match, with the same slugs in the same order |
| `ArticleService.ListsEveryMatch` | src/api/article/article.service.ts:29-35 | without limit and offset every matching stored article appears on the page |
| `ArticleService.FindAll` | src/api/article/article.service.ts:26-38 | `articlesCount` is the number of stored articles matching the query, whatever the limit and offset; entry `k` of the page is the match at position offset + `k` of the newest-first matches, and the page has `limit` entries or all that remain; without limit and offset it lists every matching article and its length is `articlesCount` |
| `ArticleService.FeedClauseMeaning` | src/api/article/article.service.ts:41-45 | the feed clause matches exactly the articles whose author the current user follows |
| `ArticleService.Feed` | src/api/article/article.service.ts:40-57 | `articlesCount` is the number of articles by authors the user follows; the page is the window offset and limit select of those articles, newest first; without limit and offset it lists every one of them and its length is `articlesCount` |
| `ArticleService.FindOne` | src/api/article/article.service.ts:59-68 | succeeds iff the slug exists and then presents that article; otherwise 404 "Entity not found!" |
| `ArticleService.IsArticleOwner` | src/api/article/article.service.ts:167-178 | a missing slug gives 404 "Article not found"; another author's article gives 403 "Permission denied!"; the author passes |
| `ArticleService.Create` | src/api/article/article.service.ts:70-101 | intended version: stores under a fresh id the article with the generated slug, the current user as author, the request's columns and each tag once; adds the tags to the tag table; returns that article |
| `ArticleService.CreateData` | src/api/article/article.service.ts:74-96 | the new row has the request's columns, the author, no favourites, no update time, and each requested tag exactly once |
| `ArticleService.Update` | src/api/article/article.service.ts:103-127 | intended version: fails with the owner check's error, database unchanged; otherwise only that article changes: present fields replaced, `updatedAt` set, and a new title gives a newly generated slug |
| `ArticleService.CreateAsWritten` | src/api/article/article.service.ts:70-101 | as written: every request fails with 404 "Entity not found!" and the database is unchanged |
| `ArticleService.UpdateAsWritten` | src/api/article/article.service.ts:103-127 | as written: the owner check's error as before; a request with a title fails with 404 "Entity not found!" and the database unchanged; a request without one updates the article as intended |
| `ArticleService.UpdateData` | src/api/article/article.service.ts:115-121 | each present field replaces its column; absent ones keep theirs; relations and creation time stay; `updatedAt` is now; an empty request changes only `updatedAt` |
| `ArticleService.UpdatedSlug` | src/api/article/article.service.ts:118-120 | without a title the slug stays; with one, it is generated against the slugs taken, and so differs from the old slug |
| `ArticleService.Delete` | src/api/article/article.service.ts:155-165 | fails with the owner check's error, database unchanged; otherwise exactly that article is removed |
| `ArticleService.CreateComment` | src/api/article/article.service.ts:180-199 | a missing slug fails with P2025, database unchanged; otherwise a comment by the current user on that article is stored under a fresh id and returned |
| `ArticleService.FindAllComments` | src/api/article/article.service.ts:201-217 | exactly the comments of the article with that slug, in id order, each with its body, time and author; none for an unknown slug |
| `ArticleService.MapCommentsPresents` | src/api/article/article.service.ts:214-216 | each mapped comment shows its stored id, body, time, author name and the viewer's follow flag |
| `ArticleService.MapComments` | src/api/article/article.service.ts:215 | maps each comment, in order |
| `ArticleService.DeleteComment` | src/api/article/article.service.ts:219-231 | removes exactly that comment; a missing id gives 404 "Article not found!" with the database unchanged |
| `ArticleService.Favorite` | src/api/article/article.service.ts:245-262 | connects the current user to the article's favourites (idempotent); only that article changes; the result is favourited; a missing slug gives 404 "Article not found!" |
| `ArticleService.Unfavorite` | src/api/article/article.service.ts:264-281 | disconnects the current user (no error when absent); only that article changes; the result is not favourited; a missing slug gives 404 "Article not found!" |
| `ProfileService.ToProfile` | src/api/profile/profile.service.ts:29-36 | the profile shows id, user name, bio and image; `following` iff the viewer is among the followers |
| `ProfileService.ProfileHidesPrivateColumns` | src/api/profile/profile.service.ts:29-30 | the profile does not depend on the password, e-mail or timestamps |
| `ProfileService.FindOne` | src/api/profile/profile.service.ts:23-41 | fails with 404 "Entity not found!" iff no user has the name, otherwise shows that user's profile |
| `ProfileService.Follow` | src/api/profile/profile.service.ts:50-75 | connects the current user to the target's followers; only that row changes; the result is followed; an unknown name gives 404 |
| `ProfileService.Unfollow` | src/api/profile/profile.service.ts:84-109 | disconnects the current user from the target's followers; only that row changes; the result is not followed; an unknown name gives 404 |
| `AuthService.Create` | src/api/user/auth/auth.service.ts:30-59 | fails with 400 iff a user has the name or the e-mail, database unchanged; otherwise adds exactly one user with the hashed password and returns its record |
| `AuthService.Login` | src/api/user/auth/auth.service.ts:68-82 | an unknown e-mail gives 404; a wrong password gives 401 "Invalid password!"; success returns the token for `{ email, userId }` and the user's columns without the password |
| `AuthService.GetUserRequestData` | src/api/user/auth/auth.service.ts:84-102 | `{ id, email }` of the user; a missing user is a type error |
| `UserService.GetCurrentUser` | src/api/user/user.service.ts:24-32 | the record of the current user, or 404 "Entity not found!" |
| `UserService.UpdateData` | src/api/user/user.service.ts:51-54 | each present field replaces its column (the password unhashed); absent ones keep theirs; `updatedAt` is now |
| `UserService.Update` | src/api/user/user.service.ts:41-64 | a missing user gives 404, a clash on user name or e-mail rethrows P2002, both with the database unchanged; otherwise only the current row is overwritten and returned |
| `Validation.Messages` | src/main.ts:12 | the constraint messages of one error, in order |
| `Validation.PropertiesStep` | src/main.ts:11-13 | one more error adds its property to the keys |
| `Validation.ExceptionFactory` | src/main.ts:9-15 | status 422; the keys are exactly the failing properties; each maps to the messages of its last error; no errors give an empty map |

## Left out

- The Prisma client and the database engine: queries, `include`/`select`, connections and shutdown hooks. The tables are in-memory maps, so a failed query is an error value rather than an exception.
- The database schema is not part of this model. Assumed: `createdAt` defaults to now; `updatedAt` is empty until an update; slug, user name, e-mail and tag name are unique; deleting an article leaves its comments.
- Password hashing, password checking and JWT signing are function parameters. Tokens are opaque strings and token expiry is left out, since it depends on the wall clock.
- Controllers, modules, DTO decorators, Swagger and the logging middleware are routing and wiring.
- The owner check in `deleteComment` is started but never awaited, so it races the delete. The model deletes by id only and ignores the slug.
- Timestamps are abstract natural numbers; their ISO-8601 formatting is not modelled.
- `toLowerCase` is modelled on ASCII only. Characters outside ASCII are dropped by the `\w` filter anyway; the few whose lower-case form is ASCII (the Kelvin sign, the dotted capital I) are not modelled.
- Two concurrent requests can both see a slug as free. The model is sequential.
- `article.helper.ts` and `article.prisma.query.ts` are not imported by the service, so they are not modelled.
- `tag.service.ts` is a plain `findMany` over the tag table and is not modelled.
- `ArticleService.Create`: a request without `tagList` crashes the code (`tagList.map` of undefined). The model's request type always carries a list.
- `profile.service.ts` imports `catchNotFoundError` from the module of `catchPrismaNotFoundError`, which does not export it. Two readings are possible. By the module path, the helper meant is `catchPrismaNotFoundError`, and P2025 becomes 404 "Entity not found!". By the name, it is `catchNotFoundError` of `src/shared/prisma.error.catch.ts`, and P2025 becomes 404 "Article not found!". `findOne` answers 404 "Entity not found!" under both, since the client's own exception passes through either helper. Only `follow` and `unfollow` of an unknown user name differ. The model follows the module path, because the file it names is the one the rest of the user code imports, and "Article not found!" is a wrong message for a missing user.
- `AuthService.Login`: `AuthHelper` defines no `verifyPassword` (src/api/user/auth/auth.helper.ts), so as written every login with a known e-mail throws a TypeError (500). The model takes the password check as a parameter and gives the call its evident meaning: 401 "Invalid password!" when the check fails.
- `ArticleService.Create`, `ArticleService.CreateComment`, `ArticleService.Favorite`, `ProfileService.Follow`: require the current user to be stored. The authenticated caller always names a stored user: tokens are issued only at login, and users are never deleted. So the P2025 that Prisma raises when `connect` names a missing user is not modelled.
- `Validation.ExceptionFactory`: the constraints of an error form a sequence of messages. An error whose `constraints` is undefined, on which `Object.values` throws, is not modelled.
- `ArticleQuery.Page`: `limit` and `offset` are natural numbers. Negative or non-numeric query values are not modelled.
- Response wrapper objects (`{ article }`, `{ profile }`, `{ user }`, `{ comments }`) are left out; the services return their contents.

## Findings

| source | as written | input that shows it | evidently intended | confidence | as-written member | corrected member |
|---|---|---|---|---|---|---|
| src/api/article/article.service.ts:147-153 | `isSlugUnique` calls `findUnique` without overriding the client's default `rejectOnNotFound` (src/shared/prisma/prisma.service.ts:24-26), so a free slug rejects with 404 instead of returning `true` | any slug not in the article table, e.g. "how-to-train-your-dragon" on an empty database | `true` for a free slug, `false` for a taken one | not executed | `ArticleService.IsSlugUniqueAsWritten` | `ArticleService.IsSlugUnique` |
| src/api/article/article.service.ts:131-138 | `generateSlug` stops at the first free candidate with the rejection of its lookup and never returns a slug | any title on any database, e.g. "How to train your dragon" on an empty one | the first free candidate | not executed | `ArticleService.GenerateSlugAsWritten` | `ArticleService.GenerateSlug` |
| src/api/article/article.service.ts:70-101 | `create` awaits `generateSlug` first, so every article creation fails with 404 "Entity not found!" and nothing is stored | the user `a` posts the title "How to train your dragon" to an empty article table (`Scenarios.DragonArticleAsWritten`) | the article is stored with slug "how-to-train-your-dragon" (`Scenarios.DragonArticle`) | not executed | `ArticleService.CreateAsWritten` | `ArticleService.Create` |
| src/api/article/article.service.ts:118-120 | `update` with a `title` key awaits `generateSlug` after the owner check, so it fails with 404 and changes nothing | the author of an article sends any new title | the article gets the new title and a slug generated from it | not executed | `ArticleService.UpdateAsWritten` | `ArticleService.Update` |
