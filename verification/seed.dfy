/** The database seed (prisma/seed.ts): make sure at least one user exists,
    then turn the article list into rows, slugging each title and handing
    the articles to the users round-robin with counts from 100 upwards. */
module Seed {
  import opened Wrappers
  import opened Entities
  import opened Users
  import opened Slug

  const SeedEmail := "example@gmail.com"
  const SeedPassword := "123456"
  const SeedName := "Mohamed Ayman"

  /** A seeded article before it becomes a row. */
  datatype ArticleSource = ArticleSource(title: string, content: string)

  /** A row of `articlesData`: the article and its starting view count. */
  datatype SeededArticle = SeededArticle(article: Article, count: int)

  datatype SeedError = SeedFailed

  /** The user ids the seed hands out, with the store they live in. */
  datatype Authors = Authors(users: UserStore, ids: seq<int>)

  /** `id` belongs to some stored user. */
  predicate IsUserId(users: UserStore, id: int) {
    exists e :: e in users && users[e].id == id
  }

  /** The default user exactly as the seed writes it: the password is
      stored as typed, not hashed. */
  function SeedUserAsWritten(id: int): (u: UserRecord)
    ensures u.email == SeedEmail && u.hashedPassword == SeedPassword
  {
    UserRecord(id, Some(SeedName), SeedEmail, None, SeedPassword)
  }

  /** The default user stored the way sign-up stores users. */
  function SeedUser(id: int, makeHash: HashFn): (u: UserRecord)
    ensures u.email == SeedEmail && IsDigest(u.hashedPassword)
  {
    UserRecord(id, Some(SeedName), SeedEmail, None, makeHash(SeedPassword))
  }

  /** Signing in as the default user of the seed as written never works,
      whatever the hash function: a six-character password is no digest. */
  lemma SeedUserAsWrittenCannotSignIn(users: UserStore, id: int, makeHash: HashFn, db: DbOutcome)
    ensures GetUser(users[SeedEmail := SeedUserAsWritten(id)], UserInput(None, SeedEmail, SeedPassword, None), makeHash, db)
            == None
  {
    var stored := users[SeedEmail := SeedUserAsWritten(id)];
    assert !IsDigest(stored[SeedEmail].hashedPassword);
    RawPasswordNeverMatches(stored, UserInput(None, SeedEmail, SeedPassword, None), makeHash, db);
  }

  /** The corrected default user signs in with the seeded password. */
  lemma SeedUserSignsIn(users: UserStore, id: int, makeHash: HashFn)
    ensures GetUser(users[SeedEmail := SeedUser(id, makeHash)], UserInput(None, SeedEmail, SeedPassword, None), makeHash, Completed)
            == Some(SeedUser(id, makeHash))
  {
  }

  /** The default-user step of the seed: the ids of the users found, or, when there are none,
      the id of `defaultUser`, created under the seed e-mail.  Creating that
      user fails (and the seed aborts) if its e-mail is somehow taken.  The
      seed as written passes `SeedUserAsWritten(id)`; `SeedUser(id, makeHash)`
      is the record sign-up would have stored. */
  function SeedAuthors(users: UserStore, found: seq<int>, defaultUser: UserRecord): (r: Result<Authors, SeedError>)
    ensures r.Failure? <==> |found| == 0 && SeedEmail in users
    ensures |found| > 0 ==> r == Success(Authors(users, found))
    ensures |found| == 0 && SeedEmail !in users ==>
              && r.Success? && r.value.ids == [defaultUser.id]
              && SeedEmail in r.value.users && r.value.users[SeedEmail] == defaultUser
              && r.value.users - {SeedEmail} == users
  {
    if |found| > 0 then Success(Authors(users, found))
    else if SeedEmail in users then Failure(SeedFailed)
    else
      var added := users[SeedEmail := defaultUser];
      assert added - {SeedEmail} == users;
      Success(Authors(added, [defaultUser.id]))
  }

  /** `findMany` returned the ids of exactly the stored users. */
  predicate ListsAllUsers(users: UserStore, found: seq<int>) {
    && (forall k :: 0 <= k < |found| ==> IsUserId(users, found[k]))
    && (forall e :: e in users ==> users[e].id in found)
  }

  /** When `found` lists every stored user, the failure branch cannot be
      taken: a stored seed e-mail means a user was found. */
  lemma SeedAuthorsNeverFails(users: UserStore, found: seq<int>, defaultUser: UserRecord)
    requires ListsAllUsers(users, found)
    ensures SeedAuthors(users, found, defaultUser).Success?
  {
  }

  /** When the ids found belong to stored users, every id handed out
      belongs to a stored user afterwards, and the store stays keyed by
      e-mail. */
  lemma SeedAuthorsAreUsers(users: UserStore, found: seq<int>, defaultUser: UserRecord)
    requires forall k :: 0 <= k < |found| ==> IsUserId(users, found[k])
    requires KeyedByEmail(users) && defaultUser.email == SeedEmail
    ensures var r := SeedAuthors(users, found, defaultUser);
            r.Success? ==>
              && (forall k :: 0 <= k < |r.value.ids| ==> IsUserId(r.value.users, r.value.ids[k]))
              && KeyedByEmail(r.value.users)
  {
    var r := SeedAuthors(users, found, defaultUser);
    if r.Success? && |found| == 0 {
      var stored := r.value.users;
      assert IsUserId(stored, defaultUser.id);
      forall e | e in stored
        ensures stored[e].email == e
      {
        if e != SeedEmail {
          assert e in stored - {SeedEmail};
        }
      }
    }
  }

  /** A default user whose password is a digest keeps the store holding
      only digests. */
  lemma SeedAuthorsKeepsDigests(users: UserStore, found: seq<int>, defaultUser: UserRecord)
    requires OnlyDigests(users) && IsDigest(defaultUser.hashedPassword)
    ensures var r := SeedAuthors(users, found, defaultUser);
            r.Success? ==> OnlyDigests(r.value.users)
  {
    var r := SeedAuthors(users, found, defaultUser);
    if r.Success? && |found| == 0 {
      var stored := r.value.users;
      forall e | e in stored
        ensures IsDigest(stored[e].hashedPassword)
      {
        if e != SeedEmail {
          assert e in stored - {SeedEmail};
        }
      }
    }
  }

  /** The seed as written, run on an empty user table, leaves a store with
      a raw password in it, and its default user can never sign in. */
  lemma SeedAsWrittenLocksOut(users: UserStore, id: int, makeHash: HashFn, db: DbOutcome)
    requires SeedEmail !in users
    ensures var r := SeedAuthors(users, [], SeedUserAsWritten(id));
            && r.Success? && !OnlyDigests(r.value.users)
            && GetUser(r.value.users, UserInput(None, SeedEmail, SeedPassword, None), makeHash, db) == None
  {
    var r := SeedAuthors(users, [], SeedUserAsWritten(id));
    assert !IsDigest(r.value.users[SeedEmail].hashedPassword);
    SeedUserAsWrittenCannotSignIn(users, id, makeHash, db);
  }

  /** With the corrected default user the seeded store holds only digests
      and the default user signs in with the seeded password. */
  lemma SeedCorrectedSignsIn(users: UserStore, id: int, makeHash: HashFn)
    requires SeedEmail !in users && OnlyDigests(users)
    ensures var r := SeedAuthors(users, [], SeedUser(id, makeHash));
            && r.Success? && OnlyDigests(r.value.users)
            && GetUser(r.value.users, UserInput(None, SeedEmail, SeedPassword, None), makeHash, Completed)
               == Some(SeedUser(id, makeHash))
  {
    SeedAuthorsKeepsDigests(users, [], SeedUser(id, makeHash));
    SeedUserSignsIn(users, id, makeHash);
  }

  /** Row i of `articlesData`. */
  function Row(source: ArticleSource, i: nat, authorId: int): SeededArticle {
    SeededArticle(Article(source.title, source.content, Slugify(source.title), None, true, authorId), 100 + i)
  }

  /** The `articlesData` mapping, `articles.map((article, i) => ...)`. */
  function ArticlesData(articles: seq<ArticleSource>, ids: seq<int>): (rows: seq<SeededArticle>)
    requires |ids| > 0
    ensures |rows| == |articles|
    ensures forall i :: 0 <= i < |rows| ==>
              && rows[i].article.title == articles[i].title
              && rows[i].article.content == articles[i].content
              && rows[i].article.slug == Slugify(articles[i].title)
              && rows[i].article.imageUrl == None
              && rows[i].article.published
              && rows[i].article.authorId == ids[i % |ids|]
              && rows[i].count == 100 + i
  {
    seq(|articles|, i requires 0 <= i < |articles| => Row(articles[i], i, ids[i % |ids|]))
  }

  /** Each row keeps its title and content, is published without an image,
      and carries a well-formed slug of its title. */
  lemma ArticlesDataFields(articles: seq<ArticleSource>, ids: seq<int>, i: nat)
    requires |ids| > 0 && i < |articles|
    ensures var a := ArticlesData(articles, ids)[i].article;
            && a.title == articles[i].title && a.content == articles[i].content
            && a.published && a.imageUrl == None
            && WellFormedSlug(a.slug)
            && RemoveDashes(a.slug) == KeepSlugChars(Lower(articles[i].title))
  {
  }

  /** Every author is one of the ids handed out. */
  lemma ArticlesDataAuthorsKnown(articles: seq<ArticleSource>, ids: seq<int>, i: nat)
    requires |ids| > 0 && i < |articles|
    ensures ArticlesData(articles, ids)[i].article.authorId in ids
  {
    assert ids[i % |ids|] in ids;
  }

  lemma {:induction false} MulAtLeast(n: int, k: nat)
    requires n > 0 && k >= 1
    ensures n * k >= n
    decreases k
  {
    if k > 1 {
      MulAtLeast(n, k - 1);
      assert n * k == n * (k - 1) + n;
    }
  }

  /** `%` is periodic in its divisor. */
  lemma ModAddPeriod(i: nat, n: nat)
    requires n > 0
    ensures (i + n) % n == i % n
  {
    var a, b := (i + n) / n, i / n;
    var r1, r0 := (i + n) % n, i % n;
    assert n * (a - b - 1) == r0 - r1;
    assert n * (b + 1 - a) == r1 - r0;
    if a - b - 1 >= 1 {
      MulAtLeast(n, a - b - 1);
    } else if b + 1 - a >= 1 {
      MulAtLeast(n, b + 1 - a);
    }
  }

  /** Round-robin: articles |ids| apart share an author. */
  lemma ArticlesDataRoundRobin(articles: seq<ArticleSource>, ids: seq<int>, i: nat)
    requires |ids| > 0 && i + |ids| < |articles|
    ensures ArticlesData(articles, ids)[i + |ids|].article.authorId == ArticlesData(articles, ids)[i].article.authorId
  {
    var n := |ids|;
    var rows := ArticlesData(articles, ids);
    assert rows[i + n].article.authorId == ids[(i + n) % n];
    assert rows[i].article.authorId == ids[i % n];
    ModAddPeriod(i, n);
  }

  /** With at least as many articles as authors, every author gets one. */
  lemma ArticlesDataEveryAuthor(articles: seq<ArticleSource>, ids: seq<int>, k: nat)
    requires |ids| > 0 && k < |ids| <= |articles|
    ensures ArticlesData(articles, ids)[k].article.authorId == ids[k]
  {
    assert k % |ids| == k;
  }

  /** Counts go up by one per row, from 100. */
  lemma ArticlesDataCounts(articles: seq<ArticleSource>, ids: seq<int>, i: nat, j: nat)
    requires |ids| > 0 && i < j < |articles|
    ensures ArticlesData(articles, ids)[i].count == 100 + i
    ensures ArticlesData(articles, ids)[i].count < ArticlesData(articles, ids)[j].count
  {
  }

  /** The rows are a function of each title and content alone: editing one
      article's text changes only its row. */
  lemma ArticlesDataPointwise(articles: seq<ArticleSource>, ids: seq<int>, i: nat, source: ArticleSource, j: nat)
    requires |ids| > 0 && i < |articles| && j < |articles| && j != i
    ensures ArticlesData(articles[i := source], ids)[j] == ArticlesData(articles, ids)[j]
  {
  }
}
