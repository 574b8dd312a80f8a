/**
 * The article detail page (src/pages/PostDetail.jsx): its local state (the
 * loaded article, its comments, the comment being typed) and the handlers that
 * change it — the optimistic like, the comment submission — plus the delete
 * permission and what the like button shows.
 */
module PostDetail {
  import opened DocumentStore
  import opened UserService
  import opened ArticleService
  import opened CommentService
  import opened AuthContext

  /** JavaScript `x + d` on a number field: an absent field or NaN gives NaN. */
  function AddNumber(x: Numeric, d: int): (r: Numeric)
    ensures x.Number? <==> r.Number?
    ensures x.Number? ==> r.n == x.n + d
    ensures !x.Number? ==> r == NotANumber
  {
    if x.Number? then Number(x.n + d) else NotANumber
  }

  /**
   * The `setArticle` updater of `handleLike`: the same membership test as the
   * service, but `prev.likes` is used as it is, without `|| 0`.
   */
  function OptimisticFlip(prev: Article, u: Id): (r: Article)
    ensures r == prev.(likes := r.likes, likedBy := r.likedBy)
    ensures u in LikedBy(r) <==> u !in LikedBy(prev)
    ensures forall v :: v != u ==> (v in LikedBy(r) <==> v in LikedBy(prev))
    ensures r.likes == AddNumber(prev.likes, if u in LikedBy(prev) then -1 else 1)
  {
    var isLiked := u in LikedBy(prev);
    prev.(likes := AddNumber(prev.likes, if isLiked then -1 else 1),
          likedBy := if isLiked then Some(Without(LikedBy(prev), u)) else Some(LikedBy(prev) + [u]))
  }

  /** With a defined count, the local flip computes exactly the record the transaction writes. */
  lemma OptimisticFlipMatchesToggle(a: Article, u: Id)
    requires a.likes.Number?
    ensures OptimisticFlip(a, u) == Toggle(a, u)
  {
  }

  /**
   * Without a stored count the two sides part: the page holds a NaN count,
   * which the button shows as `likes || 0` (that is `Likes`), hence 0, while
   * the store writes plus or minus one.
   */
  lemma MissingCountDiverges(a: Article, u: Id)
    requires a.likes.Undefined?
    ensures OptimisticFlip(a, u).likes == NotANumber
    ensures Toggle(a, u).likes == Number(if u in LikedBy(a) then -1 else 1)
    ensures Likes(OptimisticFlip(a, u)) == 0 != Likes(Toggle(a, u))
  {
  }

  /** `article.likedBy?.includes(user?.id)`: the like button shows the liked state. */
  function ShowsLiked(a: Article, user: Option<Doc<User>>): (r: bool)
  {
    user.Some? && user.value.id in LikedBy(a)
  }

  /**
   * A click with a defined count flips the displayed liked state and moves the
   * displayed count (`likes || 0`, that is `Likes`) by one in the same direction.
   */
  lemma FlipShowsToggle(a: Article, user: Doc<User>)
    requires a.likes.Number?
    ensures ShowsLiked(OptimisticFlip(a, user.id), Some(user)) == !ShowsLiked(a, Some(user))
    ensures Likes(OptimisticFlip(a, user.id)) ==
              if ShowsLiked(a, Some(user)) then Likes(a) - 1 else Likes(a) + 1
  {
  }

  /** `canDelete`: a logged-in user who owns the article or is an administrator. */
  function CanDelete(user: Option<Doc<User>>, isAdmin: bool, a: Article): (r: bool)
  {
    user.Some? && (user.value.id == a.userId || isAdmin)
  }

  /**
   * With the session's own `isAdmin`, delete is offered exactly to a logged-in
   * owner or to a logged-in account whose stored flag is exactly `true`.
   */
  lemma CanDeleteInSession(session: AuthProvider, a: Article)
    ensures CanDelete(session.user, session.IsAdmin(), a) <==>
              session.user.Some? &&
              (session.user.value.id == a.userId || session.user.value.data.isAdmin == Some(true))
  {
  }

  class DetailPage {
    /** The route's `:id`. */
    const id: Id
    const articles: Collection<Article>
    const commentStore: Collection<Comment>
    /** `article` state: `None` until loaded. */
    var article: Option<Article>
    /** `comments` state. */
    var comments: seq<Doc<Comment>>
    /** `newComment.text` state. */
    var newComment: string
    /** `loading` state. */
    var loading: bool

    constructor (id: Id, articles: Collection<Article>, commentStore: Collection<Comment>)
      ensures this.id == id && this.articles == articles && this.commentStore == commentStore
      ensures article == None && comments == [] && newComment == "" && loading
    {
      this.id := id;
      this.articles := articles;
      this.commentStore := commentStore;
      article := None;
      comments := [];
      newComment := "";
      loading := true;
    }

    /**
     * `loadData`: the article, then its comments; when the article cannot be
     * fetched the comments are not asked for. Loading ends in every case.
     */
    method Load(articleFault: bool, commentFault: bool)
      requires commentStore.Valid()
      modifies this`article, this`comments, this`loading
      ensures !loading
      ensures FetchArticleById(articles, id, articleFault).Success? ==>
                article == Some(articles.docs[id]) &&
                comments == FetchCommentsByArticleId(commentStore, id, commentFault)
      ensures FetchArticleById(articles, id, articleFault).Failure? ==>
                article == old(article) && comments == old(comments)
    {
      var fetched := FetchArticleById(articles, id, articleFault);
      if fetched.Success? {
        article := Some(fetched.value.data);
        comments := FetchCommentsByArticleId(commentStore, id, commentFault);
      }
      loading := false;
    }

    /**
     * `handleLike`: without a logged-in user nothing changes and no toggle is
     * issued. Otherwise the local article is flipped first and then the toggle
     * runs; a failing toggle leaves the local flip in place (there is no
     * rollback), and a succeeding one leaves local and stored article equal
     * when they were equal before and the count was defined.
     */
    method HandleLike(user: Option<Doc<User>>, fault: bool) returns (r: Outcome)
      requires article.Some? && articles.Valid()
      modifies this`article, articles
      ensures articles.Valid()
      ensures user.None? ==> r == Pass && article == old(article)
      ensures user.None? ==> articles.docs == old(articles.docs) && articles.nextId == old(articles.nextId)
      ensures user.Some? ==> article == Some(OptimisticFlip(old(article).value, user.value.id))
      ensures user.Some? ==> articles.nextId == old(articles.nextId)
      ensures user.Some? ==>
                r == (if fault then Fail(StoreFailure) else if id !in old(articles.docs) then Fail(NotFound) else Pass)
      ensures user.Some? && r.Fail? ==> articles.docs == old(articles.docs)
      ensures user.Some? && r.Pass? ==>
                articles.docs == old(articles.docs)[id := Toggle(old(articles.docs[id]), user.value.id)]
      ensures user.Some? && r.Pass? && old(article) == Some(old(articles.docs[id])) && old(article).value.likes.Number? ==>
                article == Some(articles.docs[id])
    {
      if user.None? {
        return Pass;
      }
      var u := user.value.id;
      article := Some(OptimisticFlip(article.value, u));
      r := ToggleLike(articles, id, u, fault);
      if r.Pass? && old(article).value.likes.Number? {
        OptimisticFlipMatchesToggle(old(article).value, u);
      }
    }

    /**
     * `handleCommentSubmit`: with no user, or an empty text, nothing is added.
     * Otherwise one comment from the user's pseudo and avatar is added; when
     * that succeeds the list is replaced by a fresh fetch and the input is
     * cleared, and when it fails the page state stays as it was.
     */
    method HandleCommentSubmit(user: Option<Doc<User>>, now: Time, addFault: bool, fetchFault: bool)
      returns (r: Outcome)
      requires commentStore.Valid()
      modifies this`comments, this`newComment, commentStore
      ensures commentStore.Valid()
      ensures user.None? || old(newComment) == "" ==>
                r == Pass && comments == old(comments) && newComment == old(newComment) &&
                commentStore.docs == old(commentStore.docs) && commentStore.nextId == old(commentStore.nextId)
      ensures user.Some? && old(newComment) != "" ==> r == if addFault then Fail(StoreFailure) else Pass
      ensures user.Some? && old(newComment) != "" && r.Fail? ==>
                comments == old(comments) && newComment == old(newComment) &&
                commentStore.docs == old(commentStore.docs) && commentStore.nextId == old(commentStore.nextId)
      ensures user.Some? && old(newComment) != "" && r.Pass? ==>
                commentStore.docs == old(commentStore.docs)[old(commentStore.nextId) :=
                  Comment(id, user.value.data.pseudo, user.value.data.avatar, old(newComment), now)]
      ensures user.Some? && old(newComment) != "" && r.Pass? ==>
                comments == FetchCommentsByArticleId(commentStore, id, fetchFault) && newComment == ""
      ensures user.Some? && old(newComment) != "" && r.Pass? ==> commentStore.nextId == old(commentStore.nextId) + 1
    {
      if user.None? {
        return Pass;
      }
      if newComment == "" {
        return Pass;
      }
      r := AddComment(commentStore, id, user.value.data.pseudo, user.value.data.avatar, newComment, now, addFault);
      if r.Fail? {
        return;
      }
      comments := FetchCommentsByArticleId(commentStore, id, fetchFault);
      newComment := "";
    }
  }
}
