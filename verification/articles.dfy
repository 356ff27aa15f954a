/** The article server actions (src/app/actions/articles.ts) as transitions
    of the article store.  The signed-in session is the user id string the
    session carries, or None; the clock, the id the database assigns and
    whether a database call throws are parameters. */
module Articles {
  import opened Wrappers
  import opened JsNumbers
  import opened Entities
  import opened Auth

  /** The errors the actions throw to their caller. */
  datatype ArticleError =
    | Unauthenticated  // "unAuthorized": no signed-in user
    | Forbidden        // "❌ Forbidden": the user does not own the article
    | MissingId        // "Unauthorized": the form carried no id
    | Rejected         // the database refused the insert; createArticle does not catch it

  /** The signed-in user's id as the session carries it (`${user.id}`). */
  type Session = Option<string>

  /** The store after an action, and whether the action returned or threw. */
  datatype Reply = Reply(store: ArticleStore, outcome: Outcome<ArticleError>)

  datatype CreateArticleInput = CreateArticleInput(
    title: string, content: string, authorId: string, imageUrl: Option<string>)

  /** An update; None stands for a field left undefined. */
  datatype UpdateArticleInput = UpdateArticleInput(
    title: Option<string>, content: Option<string>, imageUrl: Option<string>)

  /** An article after an update of title, content and imageUrl: Prisma
      leaves a field given as undefined as it was. */
  function Patch(article: Article, data: UpdateArticleInput): (r: Article)
    ensures data.title.Some? ==> r.title == data.title.value
    ensures data.title.None? ==> r.title == article.title
    ensures data.content.Some? ==> r.content == data.content.value
    ensures data.content.None? ==> r.content == article.content
    ensures data.imageUrl.Some? ==> r.imageUrl == data.imageUrl
    ensures data.imageUrl.None? ==> r.imageUrl == article.imageUrl
    ensures r.slug == article.slug && r.published == article.published && r.authorId == article.authorId
  {
    article.(
      title := data.title.GetOr(article.title),
      content := data.content.GetOr(article.content),
      imageUrl := if data.imageUrl.Some? then data.imageUrl else article.imageUrl)
  }

  /** `createArticle`: a signed-in user inserts a published article under
      their own id, slugged by the clock `now`; the input's authorId and
      imageUrl are not used.  The insert is not wrapped in a try block, so
      a rejected insert (the session id is not a number, or the id the
      database picks is taken) reaches the caller. */
  function CreateArticle(store: ArticleStore, session: Session, data: CreateArticleInput, now: int, newId: int): (r: Reply)
    ensures session.None? ==> r == Reply(store, Fail(Unauthenticated))
    ensures r.outcome.Pass? <==> session.Some? && ToNumber(session.value).Some? && newId !in store
    ensures r.outcome.Fail? ==> r.store == store
    ensures r.outcome.Pass? ==>
              && newId in r.store && r.store - {newId} == store
              && r.store[newId].title == data.title
              && r.store[newId].content == data.content
              && r.store[newId].slug == IntToDecimal(now)
              && r.store[newId].imageUrl == None
              && r.store[newId].published
              && Some(r.store[newId].authorId) == ToNumber(session.value)
  {
    match session
    case None => Reply(store, Fail(Unauthenticated))
    case Some(userId) =>
      match ToNumber(userId)
      case None => Reply(store, Fail(Rejected))
      case Some(authorId) =>
        if newId in store then Reply(store, Fail(Rejected))
        else
          var article := Article(data.title, data.content, IntToDecimal(now), None, true, authorId);
          Reply(store[newId := article], Pass)
  }

  /** `updateArticle`: only the author may edit; a failing update is
      swallowed and reported as success. */
  function UpdateArticle(store: ArticleStore, session: Session, id: string, data: UpdateArticleInput, db: DbOutcome): (r: Reply)
    ensures session.None? ==> r == Reply(store, Fail(Unauthenticated))
    ensures session.Some? && !AuthorizeUserToEditArticle(store, session.value, id) ==> r == Reply(store, Fail(Forbidden))
    ensures db.Threw? ==> r.store == store
    ensures r.store != store ==> ToNumber(id).Some? && ToNumber(id).value in store
    ensures r.store.Keys == store.Keys
    ensures forall k :: k in store && Some(k) != ToNumber(id) ==> r.store[k] == store[k]
    ensures r.outcome.Pass? && db.Completed? ==> r.store[ToNumber(id).value] == Patch(store[ToNumber(id).value], data)
  {
    match session
    case None => Reply(store, Fail(Unauthenticated))
    case Some(userId) =>
      if !AuthorizeUserToEditArticle(store, userId, id) then Reply(store, Fail(Forbidden))
      else
        var key := ToNumber(id).value;
        match db
        case Threw => Reply(store, Pass)
        case Completed => Reply(store[key := Patch(store[key], data)], Pass)
  }

  /** `deleteArticleForm`: any signed-in user deletes the article whose id
      the form carries.  A failing delete, including one of an id that
      names no article, is swallowed. */
  function DeleteArticleForm(store: ArticleStore, session: Session, formId: Option<string>, db: DbOutcome): (r: Reply)
    ensures session.None? ==> r == Reply(store, Fail(Unauthenticated))
    ensures session.Some? && (formId.None? || formId.value == "") ==> r == Reply(store, Fail(MissingId))
    ensures session.Some? && formId.Some? && formId.value != "" ==> r.outcome == Pass
    ensures r.outcome.Fail? || db.Threw? ==> r.store == store
    ensures r.store.Keys <= store.Keys
    ensures forall k :: k in r.store ==> r.store[k] == store[k]
    ensures formId.Some? ==> forall k :: k in store && Some(k) != ToNumber(formId.value) ==> k in r.store
    ensures r.outcome.Pass? && db.Completed? && ToNumber(formId.value).Some?
            ==> r.store == store - {ToNumber(formId.value).value}
  {
    match session
    case None => Reply(store, Fail(Unauthenticated))
    case Some(_) =>
      if formId.None? || formId.value == "" then Reply(store, Fail(MissingId))
      else
        match ToNumber(formId.value)
        case None => Reply(store, Pass)
        case Some(key) =>
          if key !in store || db.Threw? then Reply(store, Pass)
          else Reply(store - {key}, Pass)
  }

  /** Who may update: exactly the author, through the ownership check. */
  lemma UpdateOnlyByAuthor(store: ArticleStore, session: Session, id: string, data: UpdateArticleInput, db: DbOutcome)
    ensures UpdateArticle(store, session, id, data, db).outcome.Pass?
            <==> session.Some? && AuthorizeUserToEditArticle(store, session.value, id)
  {
  }

  /** A printed author id may update a printed article id iff it owns it. */
  lemma UpdateByPrintedIds(store: ArticleStore, user: int, id: int, data: UpdateArticleInput)
    ensures UpdateArticle(store, Some(IntToDecimal(user)), IntToDecimal(id), data, Completed).outcome.Pass?
            <==> OwnedBy(store, id, user)
  {
    AuthorizeIsOwnership(store, user, id);
  }

  /** An authorised update whose database call throws still reports
      success, and changes nothing. */
  lemma UpdateSwallowsFailure(store: ArticleStore, session: Session, id: string, data: UpdateArticleInput)
    requires session.Some? && AuthorizeUserToEditArticle(store, session.value, id)
    ensures UpdateArticle(store, session, id, data, Threw) == Reply(store, Pass)
  {
  }

  /** The ownership check reads only author ids, which an update never
      changes, so the author may repeat an update and it changes nothing
      more. */
  lemma UpdateIdempotent(store: ArticleStore, session: Session, id: string, data: UpdateArticleInput)
    ensures var once := UpdateArticle(store, session, id, data, Completed);
            UpdateArticle(once.store, session, id, data, Completed) == Reply(once.store, once.outcome)
  {
    var once := UpdateArticle(store, session, id, data, Completed);
    if session.Some? && AuthorizeUserToEditArticle(store, session.value, id) {
      var key := ToNumber(id).value;
      var patched := Patch(store[key], data);
      assert once.store == store[key := patched];
      AuthorizeDependsOnlyOnAuthor(store, once.store, session.value, id);
      assert Patch(patched, data) == patched;
      assert once.store[key := Patch(once.store[key], data)] == once.store;
    }
  }

  /** Whatever the input claims, the author of a created article is the
      signed-in user, and no image is stored. */
  lemma CreateIgnoresClaimedAuthor(store: ArticleStore, session: Session, data: CreateArticleInput,
                                   claimed: string, image: Option<string>, now: int, newId: int)
    ensures CreateArticle(store, session, data, now, newId)
            == CreateArticle(store, session, data.(authorId := claimed, imageUrl := image), now, newId)
  {
  }

  /** The creator of an article may then edit it, and nobody else may. */
  lemma CreateThenUpdate(store: ArticleStore, user: int, other: int, data: CreateArticleInput,
                         now: int, newId: int, change: UpdateArticleInput)
    requires newId !in store && other != user
    ensures var created := CreateArticle(store, Some(IntToDecimal(user)), data, now, newId);
            && created.outcome.Pass?
            && UpdateArticle(created.store, Some(IntToDecimal(user)), IntToDecimal(newId), change, Completed).outcome.Pass?
            && UpdateArticle(created.store, Some(IntToDecimal(other)), IntToDecimal(newId), change, Completed)
               == Reply(created.store, Fail(Forbidden))
  {
    IntToDecimalRoundTrip(user);
    var created := CreateArticle(store, Some(IntToDecimal(user)), data, now, newId);
    UpdateByPrintedIds(created.store, user, newId, change);
    AuthorizeIsOwnership(created.store, other, newId);
  }

  /** Deleting has no ownership check: any two signed-in users have the
      same effect. */
  lemma DeleteByAnyUser(store: ArticleStore, user1: string, user2: string, formId: Option<string>, db: DbOutcome)
    ensures DeleteArticleForm(store, Some(user1), formId, db) == DeleteArticleForm(store, Some(user2), formId, db)
  {
  }

  /** A completed delete of a printed id removes exactly that article. */
  lemma DeleteRemovesArticle(store: ArticleStore, user: string, id: int)
    ensures var r := DeleteArticleForm(store, Some(user), Some(IntToDecimal(id)), Completed);
            && r.outcome == Pass
            && id !in r.store
            && forall k :: k in store && k != id ==> k in r.store
  {
    IntToDecimalRoundTrip(id);
  }

  /** A delete of an existing article whose database call throws still
      reports success, and changes nothing. */
  lemma DeleteSwallowsFailure(store: ArticleStore, user: string, id: int)
    requires id in store
    ensures DeleteArticleForm(store, Some(user), Some(IntToDecimal(id)), Threw) == Reply(store, Pass)
  {
    IntToDecimalRoundTrip(id);
  }

  /** Deleting an id that names no article raises nothing and changes
      nothing. */
  lemma DeleteMissingIsSilent(store: ArticleStore, user: string, id: string, db: DbOutcome)
    requires id != "" && (ToNumber(id).None? || ToNumber(id).value !in store)
    ensures DeleteArticleForm(store, Some(user), Some(id), db) == Reply(store, Pass)
  {
  }

  /** Creating an article and deleting it again, by anyone, restores the
      store. */
  lemma CreateThenDelete(store: ArticleStore, author: string, deleter: string, data: CreateArticleInput, now: int, newId: int)
    requires CreateArticle(store, Some(author), data, now, newId).outcome.Pass?
    ensures var created := CreateArticle(store, Some(author), data, now, newId);
            DeleteArticleForm(created.store, Some(deleter), Some(IntToDecimal(newId)), Completed).store == store
  {
    IntToDecimalRoundTrip(newId);
  }
}
