/** The two database records the server actions work on, as the actions
    read and write them, and the stores that hold them: articles keyed by
    their integer id, users keyed by their unique e-mail address. */
module Entities {
  import opened Wrappers

  /** An article row.  Timestamps, the view count and the summary are not
      touched by the modelled actions and are not represented here. */
  datatype Article = Article(
    title: string,
    content: string,
    slug: string,
    imageUrl: Option<string>,
    published: bool,
    authorId: int)

  type ArticleStore = map<int, Article>

  predicate IsLowerHex(c: char) {
    '0' <= c <= '9' || 'a' <= c <= 'f'
  }

  /** What `makeHash` produces: a SHA-256 digest printed as 64 lower-case
      hexadecimal characters. */
  predicate IsDigest(s: string) {
    |s| == 64 && forall i :: 0 <= i < |s| ==> IsLowerHex(s[i])
  }

  type Digest = s: string | IsDigest(s) witness seq(64, _ => '0')

  /** `makeHash`: some deterministic function from passwords to digests. */
  type HashFn = string -> Digest

  /** Whether a database call inside a try block completes or throws. */
  datatype DbOutcome = Completed | Threw

  /** A user row as `getUser` selects it. */
  datatype UserRecord = UserRecord(
    id: int,
    name: Option<string>,
    email: string,
    imageUrl: Option<string>,
    hashedPassword: string)

  type UserStore = map<string, UserRecord>

  /** Every stored record sits under its own e-mail address. */
  predicate KeyedByEmail(users: UserStore) {
    forall e :: e in users ==> users[e].email == e
  }
}
