# WikiFlow core in Dafny

A model of the behavioural core of a small Next.js/Prisma wiki site. Users sign up and sign in. Signed-in users create, edit and delete Markdown articles. Every article view increments a Redis counter, and certain view counts send the author a celebration e-mail. The database seed gives each article a slug derived from its title.

The model covers five pieces of the code:

- **`js_numbers.dfy` (`JsNumbers`).** Ids travel through the code as strings. Two JavaScript conversions carry them: `${n}` and unary `+` / `Number(...)`. The module states the round trip between them.
- **`page_views.dfy` (`PageViews`).** The page-view counter:
  - Redis is a map from keys to integers, and `INCR` treats an absent key as 0 and refuses to pass the signed 64-bit maximum.
  - `incrementPageView` returns the new count and emits at most one `Celebration`.
  - Ids and counts are exact integers (see Left out for where JavaScript numbers differ).
  - `RecordViews` strings n views together.
- **`slug.dfy` (`Slug`) and `seed.dfy` (`Seed`).** The seed's slug derivation (lower-case, `[^a-z0-9]+` → `-`, trim one edge dash), the default seed user and the `articlesData` mapping.
- **`auth.dfy` (`Auth`) and `articles.dfy` (`Articles`).**
  - The ownership check.
  - The create, update and delete server actions, as functions from an article store (`map<int, Article>`) to a new store and an outcome (returned, or thrown with an error).
- **`users.dfy` (`Users`).** Sign-up and the credential check over a user store keyed by e-mail. `makeHash` is a parameter: any function into 64-character lower-case hex digests.

Shared types are in `wrappers.dfy` (`Option`, `Outcome`, `Result`) and `entities.dfy` (the article and user rows, `Digest`, `DbOutcome`).

What the environment supplies becomes a parameter:

- the signed-in session, as the user id string it carries (`${user.id}` in the credentials provider), or `None`;
- the clock;
- the id the database assigns to a new row;
- whether a database call inside a `try` throws.

## Model

| member | source | states |
|---|---|---|
| JsNumbers.NatToDecimalRoundTrip | src/app/actions/pageViews.ts:6 | the decimal numeral of a natural number reads back as that number |
| JsNumbers.ToNumber | prisma/auth.ts:17-24 | unary `+` on an all-digit string is the numeral's value, and on an empty or all-whitespace string it is 0 |
| JsNumbers.ToNumberIgnoresWhitespace | prisma/auth.ts:24 | whitespace before and after a string does not change what unary `+` reads from it |
| JsNumbers.IntToDecimalRoundTrip | prisma/auth.ts:24 | `+` of `${i}` is `i` for every integer, negative or not |
| JsNumbers.IntToDecimalInjective | src/app/actions/pageViews.ts:6 | two integers print the same iff they are equal |
| JsNumbers.ToNumberOfNonNumeric | prisma/auth.ts:24 | the model reads a string with any character that is not a digit, a sign or whitespace as NaN (JavaScript does not for `.`, `e`, `x` and a few others; see Left out) |
| PageViews.KeyForPrefix | src/app/actions/pageViews.ts:6 | every counter key starts with `pageviews:article` and has something after it |
| PageViews.KeyForReadsBack | src/app/actions/pageViews.ts:6 | the part of a key after the prefix converts back to the article id |
| PageViews.KeyForInjective | src/app/actions/pageViews.ts:6 | two articles share a counter key iff they are the same article |
| PageViews.Incr | src/app/actions/pageViews.ts:12 | INCR fails exactly at the 64-bit maximum; otherwise the key holds the old value (0 if absent) plus one, which is returned, and no other key changes |
| PageViews.IncrementPageView | src/app/actions/pageViews.ts:10-19 | the returned count is the previous count plus one and is at least 1; only the article's key changes; a celebration is emitted iff the count is exactly 10, 50, 100 or 10000, and it carries (articleId, count) |
| PageViews.ViewStep | src/app/actions/pageViews.ts:10-18 | one view from count c succeeds, leaves c + 1, and emits the celebration for c + 1 exactly when c + 1 is a milestone |
| PageViews.MilestonesInMembers | src/app/actions/pageViews.ts:8-14 | a value is celebrated in a run from c to c + n iff it is a milestone in (c, c + n] |
| PageViews.MilestonesInIncreasing | src/app/actions/pageViews.ts:8 | the milestones crossed are in strictly ascending order, so none repeats |
| PageViews.RecordViewsCount | src/app/actions/pageViews.ts:10-18 | n sequential views from count c that stay in range all succeed and leave the counter at c + n |
| PageViews.RecordViewsFrame | src/app/actions/pageViews.ts:11-12 | views of one article leave every other counter as it was |
| PageViews.RecordViewsValid | src/app/actions/pageViews.ts:12 | counters stay within 0..2^63-1 over a run that does not overflow |
| PageViews.RecordViewsCelebrations | src/app/actions/pageViews.ts:8-18 | the celebrations of n views from c are, in order, one per milestone in (c, c + n] |
| PageViews.RecordViewsViews | src/app/actions/pageViews.ts:14-15 | the view counts celebrated by a run are exactly the milestones in (c, c + n], ascending |
| PageViews.RecordViewsFrom | src/app/actions/pageViews.ts:10-18 | count, frame, validity and celebrations of a run, together |
| PageViews.FirstViews | src/app/actions/pageViews.ts:8-18 | from an absent key, n views leave the counter at n and celebrate exactly the milestones up to n, ascending, each once |
| PageViews.MilestoneNeverRepeats | src/app/actions/pageViews.ts:8-14 | a later run of views never celebrates a value an earlier run already celebrated |
| PageViews.FewViewsSilent | src/app/actions/pageViews.ts:14 | fewer than ten views from scratch celebrate nothing |
| PageViews.TenthViewCelebrates | src/app/actions/pageViews.ts:14-15 | from scratch, 10 to 49 views celebrate exactly (articleId, 10) |
| PageViews.HundredCelebratedOnce | src/app/actions/pageViews.ts:14-15 | two sequential views from 99 celebrate 100 exactly once |
| PageViews.PastMilestoneIsSilent | src/app/actions/pageViews.ts:14 | going from 50 to 51 celebrates nothing (membership, not a threshold) |
| Slug.LowerChar | prisma/seed.ts:2644 | an upper-case ASCII letter becomes the same letter in lower case and every other character is kept, so a character becomes `[a-z0-9]` iff it was `[a-z0-9]` or an upper-case letter |
| Slug.CollapseFromShape | prisma/seed.ts:2645 | replacing runs yields only `[a-z0-9-]`, never two dashes in a row, and removing the dashes gives the input's `[a-z0-9]` characters in order |
| Slug.CollapseSplit | prisma/seed.ts:2645 | the replacement works piecewise across a boundary just after an `[a-z0-9]` character |
| Slug.CollapseWordsGap | prisma/seed.ts:2645 | two `[a-z0-9]` words around any run of other characters become the two words joined by exactly one dash |
| Slug.TrimDashes | prisma/seed.ts:2646 | the result is the input with at most one dash removed from each end; on a collapsed string it is a well-formed slug |
| Slug.Slugify | prisma/seed.ts:2643-2646 | a slug has only `a-z`, `0-9` and `-`, no leading, trailing or doubled dash, and without its dashes it is the lower-cased title filtered to `[a-z0-9]` |
| Slug.SlugifyFixedPoints | prisma/seed.ts:2643-2646 | a string slugifies to itself iff it is a well-formed slug |
| Slug.SlugifyWordGap | prisma/seed.ts:2643-2646 | a title of two words around a run of separators slugs to the lower-cased words joined by one dash, placed where the run was |
| Slug.SlugifyIdempotent | prisma/seed.ts:2643-2646 | slugifying a slug returns it unchanged |
| Slug.SlugifyExample | prisma/seed.ts:2642-2646 | the seeded title "Mastering Next.js 15 and the App Router" (line 191) becomes "mastering-next-js-15-and-the-app-router" |
| Auth.FindAuthorId | prisma/auth.ts:15-22 | the lookup finds an author iff `+articleId` is a number naming a stored article, and returns that article's author |
| Auth.AuthorizeUserToEditArticle | prisma/auth.ts:10-25 | true iff both ids are numbers and the article exists with that author; a pure query that changes no store |
| Auth.AuthorizeIsOwnership | prisma/auth.ts:24 | on printed ids the check is exactly "article exists and the user wrote it" |
| Auth.AuthorizeMissingArticle | prisma/auth.ts:24 | no article under the id (or a non-numeric id): false |
| Auth.AuthorizeNonNumericUser | prisma/auth.ts:24 | a user id the model reads as NaN owns nothing |
| Auth.AuthorizeDependsOnlyOnAuthor | prisma/auth.ts:19-21 | stores that agree on the article's existence and author give the same answer |
| Articles.Patch | src/app/actions/articles.ts:66-70 | given fields replace title, content and imageUrl; undefined fields keep their values; slug, published flag and author are kept |
| Articles.CreateArticle | src/app/actions/articles.ts:29-47 | no session: throws "unAuthorized", store unchanged; otherwise the store gains exactly one published article with the given title and content, the session user as author, the clock as slug and no image; a rejected insert propagates |
| Articles.CreateIgnoresClaimedAuthor | src/app/actions/articles.ts:36-44 | the input's authorId and imageUrl have no effect |
| Articles.UpdateArticle | src/app/actions/articles.ts:49-79 | no session: "unAuthorized"; not the owner: "Forbidden"; both leave the store unchanged; otherwise only the named article changes, to its patched version, and no key is added or removed |
| Articles.UpdateOnlyByAuthor | src/app/actions/articles.ts:52-59 | an update returns normally iff there is a session and the ownership check passes |
| Articles.UpdateByPrintedIds | src/app/actions/articles.ts:58-59 | for printed ids, an update succeeds iff the user wrote the article |
| Articles.UpdateSwallowsFailure | src/app/actions/articles.ts:61-78 | an authorised update whose database call throws still reports success and changes nothing |
| Articles.UpdateIdempotent | src/app/actions/articles.ts:58-71 | repeating an update changes nothing more and gives the same outcome |
| Articles.CreateThenUpdate | src/app/actions/articles.ts:36-59 | the creator of an article may edit it; any other user gets "Forbidden" |
| Articles.DeleteArticleForm | src/app/actions/articles.ts:81-103 | no session: "unAuthorized"; a missing or empty id: "Unauthorized"; both leave the store unchanged. Otherwise the action always returns normally. Every article other than the one `+id` names is kept unchanged; a completed delete removes exactly that article; a thrown delete changes nothing |
| Articles.DeleteByAnyUser | src/app/actions/articles.ts:84-97 | there is no ownership check: every signed-in user has the same effect |
| Articles.DeleteRemovesArticle | src/app/actions/articles.ts:92-97 | a completed delete of a printed id removes that article and keeps all others |
| Articles.DeleteSwallowsFailure | src/app/actions/articles.ts:92-102 | a delete of an existing article whose database call throws still returns normally and changes nothing |
| Articles.DeleteMissingIsSilent | src/app/actions/articles.ts:92-102 | deleting an id that names no article raises nothing and changes nothing |
| Articles.CreateThenDelete | src/app/actions/articles.ts:36-97 | creating an article and deleting it, by anyone, restores the store |
| Users.SignUpUser | src/app/actions/users.ts:21-39 | true iff the e-mail was free and the insert completed; on false the store is unchanged; on true the store gains exactly one record under that e-mail, with the given name, no image and `makeHash(password)` |
| Users.GetUser | src/app/actions/users.ts:41-67 | the stored record iff the e-mail is known and its stored hash equals `makeHash(password)`; null otherwise and when the lookup throws |
| Users.SignUpPreservesInvariants | src/app/actions/users.ts:22-31 | sign-up keeps every record under its own e-mail and every stored password a digest |
| Users.SignUpNeverStoresRaw | src/app/actions/users.ts:22-29 | a password that is not itself a digest is never what is stored |
| Users.SignUpTwiceFails | src/app/actions/users.ts:24-38 | a second sign-up with the same e-mail returns false and changes nothing |
| Users.SignUpThenGetUser | src/app/actions/users.ts:21-61 | after a sign-up, signing in with the same e-mail and password returns the new record |
| Users.WrongPasswordRefused | src/app/actions/users.ts:59 | after a sign-up, a password with a different hash is refused |
| Users.RawPasswordNeverMatches | src/app/actions/users.ts:42-59 | a record whose stored password is not a digest can never sign in |
| Seed.SeedUserAsWrittenCannotSignIn | prisma/seed.ts:26-33 | the default user as seeded (raw password "123456") can never sign in, whatever the hash |
| Seed.SeedUser | prisma/seed.ts:26-33 | the corrected default user stores a digest under example@gmail.com |
| Seed.SeedUserSignsIn | prisma/seed.ts:26-33 | the corrected default user signs in with "123456" |
| Seed.SeedAuthors | prisma/seed.ts:22-37 | fails iff no users were found and example@gmail.com is taken; with users found, hands out exactly their ids and leaves the store alone; with none, hands out exactly the default user's id and adds exactly that user under example@gmail.com |
| Seed.SeedAuthorsNeverFails | prisma/seed.ts:22-37 | when `found` lists every stored user, the failure branch is never taken |
| Seed.SeedAuthorsAreUsers | prisma/seed.ts:22-37 | every id handed out belongs to a stored user, and the store stays keyed by e-mail |
| Seed.SeedAuthorsKeepsDigests | prisma/seed.ts:24-35 | a default user whose password is a digest keeps every stored password a digest |
| Seed.SeedAsWrittenLocksOut | prisma/seed.ts:24-35 | the seed as written, on an empty user table, stores a raw password, and its default user can never sign in |
| Seed.SeedCorrectedSignsIn | prisma/seed.ts:24-35 | with the corrected default user, every stored password is a digest and the default user signs in with "123456" |
| Seed.ArticlesData | prisma/seed.ts:2641-2654 | one row per article, in order; row i has article i's title and content, the slug of its title, no image, the published flag, author `ids[i % ids.length]` and count 100 + i |
| Seed.ArticlesDataFields | prisma/seed.ts:2642-2650 | each row keeps title and content, is published without an image, and has a well-formed slug that holds the title's `[a-z0-9]` characters |
| Seed.ArticlesDataAuthorsKnown | prisma/seed.ts:2651 | every row's author is one of the ids |
| Seed.ArticlesDataRoundRobin | prisma/seed.ts:2651 | rows `ids.length` apart have the same author |
| Seed.ArticlesDataEveryAuthor | prisma/seed.ts:2651 | with at least as many articles as ids, row k is written by id k, so every id gets an article |
| Seed.ArticlesDataCounts | prisma/seed.ts:2649 | row i has count 100 + i, so counts strictly increase |
| Seed.ArticlesDataPointwise | prisma/seed.ts:2641-2654 | changing one article's source changes no other row |

## Left out

- Redis and Prisma are modelled as in-memory maps. Concurrent requests, connectivity errors and the 60-second article-list cache are not modelled: views are sequential. Because `INCR` is atomic, two concurrent views from 99 still hand 100 to exactly one caller, which celebrates, as in the sequential model (`PageViews.HundredCelebratedOnce`).
- Ids and counts are modelled as exact unbounded integers, but JavaScript numbers are IEEE doubles. The consequences follow, one line per member.
- PageViews.IncrementPageView: the count returned as `+newVal` is exact in JavaScript only up to 2^53. From a counter of 2^53, Redis stores 2^53 + 1 but the caller receives 2^53. The model returns the exact count all the way to 2^63 - 1, and so do `PageViews.Incr` and `PageViews.RecordViewsValid`.
- JsNumbers.IntToDecimal: `${i}` switches to exponent notation at 10^21 in magnitude (`${1e21}` is "1e+21"). The model prints every integer in full.
- PageViews.KeyForInjective: `incrementPageView(articleId: number)` also accepts NaN and fractions, which give keys such as "pageviews:articleNaN" and "pageviews:article1.5". The model's `articleId` is an integer. At NaN, "same key iff same id" would not hold in JavaScript, because NaN !== NaN.
- `sendCelebrationEmail` is not awaited and does I/O (author lookup, e-mail transport, rendering). It becomes the emitted `Celebration` value. Its own branches are outside this model.
- `console.log` and `console.error` output is not modelled.
- Session lookup, the clock (`Date.now()`), auto-increment ids and database failures are parameters.
- `makeHash` is SHA-256. It is a parameter constrained only to return a 64-character lower-case hex digest.
- JsNumbers.ToNumber: unary `+` is modelled for optionally signed decimal digits with surrounding whitespace, and for the blank string. Every other string is read as NaN. JavaScript reads some of those as numbers: decimal fractions (`"1.0"`), exponents (`"1e0"`), hexadecimal, octal and binary forms (`"0x1"`) and `"Infinity"`. Several of them are integers that name real rows. Consequences:
  - `authorizeUserToEditArticle` with article id `"1.0"` is true in the source for the author of article 1 and false in the model. The edit page passes the raw URL segment, so `/wiki/edit/1.0` lets that author edit article 1 in the source while the model answers Forbidden. The edit page itself is not part of this model.
  - `deleteArticleForm` with id `"0x1"` deletes article 1 in the source and deletes nothing in the model.
- Auth.AuthorizeUserToEditArticle: a non-numeric article id is modelled as "no article found", so the update fails with Forbidden. Prisma would throw a validation error from `findUnique` instead. Either way the update fails and nothing changes.
- The schema is not part of this model. Unmodelled consequences:
  - 32-bit `Int` id columns;
  - the requirement that `authorId` names an existing user (`createArticle` with an unknown user would be rejected);
  - any uniqueness rule on slugs.
- `createdAt`, `updatedAt`, the summary and the view-count column of an article are not represented. They are only set by defaults or by the seed, so `Seed.SeededArticle` carries the count beside the article.
- `formData.get("id")` can also return a `File`. The form is modelled as an optional string.
- Seed I/O is not modelled: `deleteMany`, `findMany` (its result is the parameter `found`), `createMany`, `process.exit` and the logs. This includes the "Inserted 25" message, which does not match the 12 articles seeded.
- Lower-casing is ASCII only. Unicode `toLowerCase` is not modelled.

## Findings

| source | as written | input that shows it | evidently intended | confidence | as-written member | corrected member |
|---|---|---|---|---|---|---|
| prisma/seed.ts:24-35 | the default user is created with `hashedPassword: "123456"`, the raw password | seed an empty user table, then sign in as example@gmail.com with password 123456: `getUser` compares `makeHash("123456")` (64 hex characters) with the stored "123456" and always returns null | store `makeHash("123456")`, as `signUpUser` does | medium, not executed | Seed.SeedAsWrittenLocksOut | Seed.SeedCorrectedSignsIn |

`Seed.SeedAuthors` takes the default user's record as a parameter. The seed as written passes `Seed.SeedUserAsWritten`; the corrected seed passes `Seed.SeedUser`, whose password is a digest.
