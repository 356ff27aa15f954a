/** The ownership check guarding article edits (prisma/auth.ts): look the
    article up by the number `+articleId` and compare its author with the
    number `+loggedInUserId`. */
module Auth {
  import opened Wrappers
  import opened JsNumbers
  import opened Entities

  /** The reference rule: article `id` exists and was written by `user`. */
  predicate OwnedBy(store: ArticleStore, id: int, user: int) {
    id in store && store[id].authorId == user
  }

  /** `findUnique({ where: { id: +articleId }, select: { authorId } })`.  A
      string that is not a number finds nothing. */
  function FindAuthorId(store: ArticleStore, articleId: string): (r: Option<int>)
    ensures r.Some? <==> ToNumber(articleId).Some? && ToNumber(articleId).value in store
    ensures r.Some? ==> r.value == store[ToNumber(articleId).value].authorId
  {
    match ToNumber(articleId)
    case None => None
    case Some(id) =>
      match Get(store, id)
      case None => None
      case Some(article) => Some(article.authorId)
  }

  /** `response?.authorId === +loggedInUserId`: a missing article gives
      `undefined`, and NaN is equal to nothing. */
  function AuthorizeUserToEditArticle(store: ArticleStore, loggedInUserId: string, articleId: string): (r: bool)
    ensures r <==> ToNumber(articleId).Some? && ToNumber(loggedInUserId).Some?
                   && OwnedBy(store, ToNumber(articleId).value, ToNumber(loggedInUserId).value)
  {
    FindAuthorId(store, articleId).Some? && FindAuthorId(store, articleId) == ToNumber(loggedInUserId)
  }

  /** On printed ids, as the session and the edit form carry them, the check
      is exactly the ownership rule. */
  lemma AuthorizeIsOwnership(store: ArticleStore, user: int, id: int)
    ensures AuthorizeUserToEditArticle(store, IntToDecimal(user), IntToDecimal(id)) <==> OwnedBy(store, id, user)
  {
    IntToDecimalRoundTrip(user);
    IntToDecimalRoundTrip(id);
  }

  /** No article under the requested id: nobody may edit. */
  lemma AuthorizeMissingArticle(store: ArticleStore, loggedInUserId: string, articleId: string)
    requires ToNumber(articleId).None? || ToNumber(articleId).value !in store
    ensures !AuthorizeUserToEditArticle(store, loggedInUserId, articleId)
  {
  }

  /** A user id holding a character that cannot appear in a number is NaN,
      so it owns nothing. */
  lemma AuthorizeNonNumericUser(store: ArticleStore, loggedInUserId: string, articleId: string, i: nat)
    requires i < |loggedInUserId|
    requires !IsDigit(loggedInUserId[i]) && !IsJsWhitespace(loggedInUserId[i])
    requires loggedInUserId[i] != '+' && loggedInUserId[i] != '-'
    ensures !AuthorizeUserToEditArticle(store, loggedInUserId, articleId)
  {
    ToNumberOfNonNumeric(loggedInUserId, i);
  }

  /** Only the author field of the requested article matters: two stores
      that agree on it give the same answer. */
  lemma AuthorizeDependsOnlyOnAuthor(s1: ArticleStore, s2: ArticleStore, loggedInUserId: string, articleId: string)
    requires ToNumber(articleId).Some? ==> (ToNumber(articleId).value in s1 <==> ToNumber(articleId).value in s2)
    requires ToNumber(articleId).Some? && ToNumber(articleId).value in s1
             ==> s1[ToNumber(articleId).value].authorId == s2[ToNumber(articleId).value].authorId
    ensures AuthorizeUserToEditArticle(s1, loggedInUserId, articleId)
            == AuthorizeUserToEditArticle(s2, loggedInUserId, articleId)
  {
  }
}
