/**
 * The article repository (src/services/articleService.js) over the `articles`
 * collection, centred on the like toggle: one atomic read-modify-write that
 * either removes the user from `likedBy` and decrements `likes`, or appends
 * the user and increments `likes`.
 */
module ArticleService {
  import opened DocumentStore
  import opened UserService

  /** A JavaScript number field as the code reads it: absent, a number, or NaN. */
  datatype Numeric = Undefined | Number(n: int) | NotANumber

  /** `x || 0`: an absent field, NaN and 0 all read as 0. */
  function OrZero(x: Numeric): (r: int) {
    if x.Number? then x.n else 0
  }

  /** An article record; `likes` and `likedBy` may be missing from a stored record. */
  datatype Article = Article(
    title: string,
    content: string,
    category: string,
    imageUrl: string,
    userId: Id,
    author: string,
    likes: Numeric,
    likedBy: Option<seq<Id>>,
    createdAt: Time)

  /** `data.likedBy || []` */
  function LikedBy(a: Article): (r: seq<Id>) {
    if a.likedBy.Some? then a.likedBy.value else []
  }

  /** `data.likes || 0` */
  function Likes(a: Article): (r: int) {
    OrZero(a.likes)
  }

  /** No user id occurs twice in `s`. */
  ghost predicate NoDuplicates(s: seq<Id>) {
    forall x :: multiset(s)[x] <= 1
  }

  /**
   * The consistency the toggle is meant to keep: the count is the number of
   * likers and nobody likes twice. It is not a global invariant: the seeding
   * script writes random counts with an empty `likedBy`.
   */
  ghost predicate LikesConsistent(a: Article) {
    Likes(a) == |LikedBy(a)| && NoDuplicates(LikedBy(a))
  }

  /** `s.filter(id => id !== u)`: every occurrence of `u` goes, the rest keep their order. */
  function Without(s: seq<Id>, u: Id): (r: seq<Id>)
    ensures multiset(r) == multiset(s)[u := 0]
    ensures |r| == |s| - multiset(s)[u]
    ensures u !in r
    ensures forall v :: v != u ==> (v in r <==> v in s)
  {
    if s == [] then []
    else
      assert s == [s[0]] + s[1..];
      if s[0] == u then Without(s[1..], u) else [s[0]] + Without(s[1..], u)
  }

  /**
   * The body of the `toggleLike` transaction: the record it writes back for
   * article `a` and user `u`.
   */
  function Toggle(a: Article, u: Id): (r: Article)
    ensures r == a.(likes := r.likes, likedBy := r.likedBy)
    ensures u in LikedBy(r) <==> u !in LikedBy(a)
    ensures Likes(r) == if u in LikedBy(a) then Likes(a) - 1 else Likes(a) + 1
  {
    var likedBy := LikedBy(a);
    var likes := Likes(a);
    if u in likedBy then
      a.(likes := Number(likes - 1), likedBy := Some(Without(likedBy, u)))
    else
      a.(likes := Number(likes + 1), likedBy := Some(likedBy + [u]))
  }

  /**
   * What the toggle writes: both fields present, `u` filtered out of a list
   * that held it or appended to one that did not, and every other user's
   * membership unchanged.
   */
  lemma ToggleShape(a: Article, u: Id)
    ensures Toggle(a, u).likes.Number? && Toggle(a, u).likedBy.Some?
    ensures u in LikedBy(a) ==> LikedBy(Toggle(a, u)) == Without(LikedBy(a), u)
    ensures u !in LikedBy(a) ==> LikedBy(Toggle(a, u)) == LikedBy(a) + [u]
    ensures forall v :: v != u ==> (v in LikedBy(Toggle(a, u)) <==> v in LikedBy(a))
  {
  }

  /** Without duplicates, a present user occurs exactly once. */
  lemma OccursOnce(s: seq<Id>, u: Id)
    requires NoDuplicates(s) && u in s
    ensures multiset(s)[u] == 1
  {
    assert multiset(s)[u] <= 1;
  }

  /**
   * On a duplicate-free `likedBy`, a toggle keeps it duplicate-free and keeps
   * `likes - |likedBy|`, so it preserves `likes == |likedBy|`.
   */
  lemma ToggleKeepsConsistency(a: Article, u: Id)
    requires NoDuplicates(LikedBy(a))
    ensures NoDuplicates(LikedBy(Toggle(a, u)))
    ensures Likes(Toggle(a, u)) - |LikedBy(Toggle(a, u))| == Likes(a) - |LikedBy(a)|
    ensures LikesConsistent(a) ==> LikesConsistent(Toggle(a, u))
  {
    var s := LikedBy(a);
    if u in s {
      OccursOnce(s, u);
    } else {
      assert u !in multiset(s);
      assert multiset(s + [u]) == multiset(s) + multiset{u};
    }
  }

  /** Removing an absent user changes nothing. */
  lemma {:induction false} WithoutAbsent(s: seq<Id>, u: Id)
    requires u !in s
    ensures Without(s, u) == s
  {
    if s != [] {
      WithoutAbsent(s[1..], u);
    }
  }

  /** Removing `u` from `s + [u]` leaves `Without(s, u)`. */
  lemma {:induction false} WithoutAppended(s: seq<Id>, u: Id)
    ensures Without(s + [u], u) == Without(s, u)
  {
    if s == [] {
      assert [] + [u] == [u];
    } else {
      assert (s + [u])[1..] == s[1..] + [u];
      WithoutAppended(s[1..], u);
    }
  }

  /**
   * Two toggles by the same user undo each other: the count and every user's
   * membership come back, nothing else changes, and when the user had not
   * liked the article the exact `likedBy` sequence comes back.
   */
  lemma ToggleTwice(a: Article, u: Id)
    ensures Likes(Toggle(Toggle(a, u), u)) == Likes(a)
    ensures forall v :: v in LikedBy(Toggle(Toggle(a, u), u)) <==> v in LikedBy(a)
    ensures u !in LikedBy(a) ==> LikedBy(Toggle(Toggle(a, u), u)) == LikedBy(a)
    ensures Toggle(Toggle(a, u), u) == a.(likes := Number(Likes(a)), likedBy := Toggle(Toggle(a, u), u).likedBy)
  {
    if u !in LikedBy(a) {
      WithoutAppended(LikedBy(a), u);
      WithoutAbsent(LikedBy(a), u);
    }
  }

  /** `n` successive toggles of article `a` by user `u`. */
  function ToggleTimes(a: Article, u: Id, n: nat): (r: Article)
    decreases n
  {
    if n == 0 then a else ToggleTimes(Toggle(a, u), u, n - 1)
  }

  /** Two more toggles are two toggles applied first. */
  lemma ToggleTimesShift(a: Article, u: Id, m: nat)
    ensures ToggleTimes(a, u, m + 2) == ToggleTimes(Toggle(Toggle(a, u), u), u, m)
  {
    assert ToggleTimes(a, u, m + 2) == ToggleTimes(Toggle(a, u), u, m + 1);
  }

  /** An even number `2 * k` of toggles brings the membership and the count back. */
  lemma {:induction false} EvenTogglesRestore(a: Article, u: Id, k: nat)
    ensures u in LikedBy(ToggleTimes(a, u, 2 * k)) <==> u in LikedBy(a)
    ensures Likes(ToggleTimes(a, u, 2 * k)) == Likes(a)
    decreases k
  {
    if k > 0 {
      var b := Toggle(Toggle(a, u), u);
      EvenTogglesRestore(b, u, k - 1);
      ToggleTimesShift(a, u, 2 * (k - 1));
    }
  }

  /**
   * After an even number of toggles the user's membership and the count are
   * back; after an odd number the membership is flipped and the count moved by
   * one in the direction of the flip.
   */
  lemma TogglesByParity(a: Article, u: Id, n: nat)
    ensures u in LikedBy(ToggleTimes(a, u, n)) <==> (u in LikedBy(a) <==> n % 2 == 0)
    ensures Likes(ToggleTimes(a, u, n)) ==
              if n % 2 == 0 then Likes(a)
              else if u in LikedBy(a) then Likes(a) - 1
              else Likes(a) + 1
  {
    var k := n / 2;
    if n % 2 == 0 {
      assert n == 2 * k;
      EvenTogglesRestore(a, u, k);
    } else {
      assert n == 2 * k + 1;
      EvenTogglesRestore(Toggle(a, u), u, k);
      assert ToggleTimes(a, u, n) == ToggleTimes(Toggle(a, u), u, 2 * k);
    }
  }

  /** Toggles by one user never change whether another user likes the article. */
  lemma {:induction false} TogglesKeepOthers(a: Article, u: Id, n: nat, v: Id)
    requires v != u
    ensures v in LikedBy(ToggleTimes(a, u, n)) <==> v in LikedBy(a)
    decreases n
  {
    if n > 0 {
      ToggleShape(a, u);
      TogglesKeepOthers(Toggle(a, u), u, n - 1, v);
    }
  }

  /** The record `createArticle` stores: the submitted fields, then the stamps, which win. */
  function Stamp(submitted: Article, user: Doc<User>, now: Time): (r: Article)
    ensures r.userId == user.id && r.author == user.data.pseudo
    ensures r.likes == Number(0) && r.createdAt == now
    ensures r.title == submitted.title && r.content == submitted.content
    ensures r.category == submitted.category && r.imageUrl == submitted.imageUrl
    ensures r.likedBy == submitted.likedBy
  {
    submitted.(userId := user.id, author := user.data.pseudo, likes := Number(0), createdAt := now)
  }

  /** An article created from a form without a liked-by list starts out consistent. */
  lemma NewArticleConsistent(submitted: Article, user: Doc<User>, now: Time)
    requires submitted.likedBy.None? || submitted.likedBy == Some([])
    ensures LikesConsistent(Stamp(submitted, user, now))
  {
    assert LikedBy(Stamp(submitted, user, now)) == [];
  }

  /** `fetchArticleById`: the article with its id, or `NotFound`. */
  function FetchArticleById(db: Collection<Article>, id: Id, fault: bool): (r: Result<Doc<Article>>)
    reads db
    ensures r.Success? <==> !fault && id in db.docs
    ensures r.Success? ==> r.value == Doc(id, db.docs[id])
    ensures r.Failure? ==> r.error == if fault then StoreFailure else NotFound
  {
    if fault then Failure(StoreFailure)
    else if id in db.docs then Success(Doc(id, db.docs[id]))
    else Failure(NotFound)
  }

  /** `createArticle`: adds one stamped record under a fresh id; a failure adds nothing. */
  method CreateArticle(db: Collection<Article>, submitted: Article, user: Doc<User>, now: Time, fault: bool)
    returns (r: Outcome)
    requires db.Valid()
    modifies db
    ensures db.Valid()
    ensures r == if fault then Fail(StoreFailure) else Pass
    ensures r.Fail? ==> db.docs == old(db.docs) && db.nextId == old(db.nextId)
    ensures r.Pass? ==> old(db.nextId) !in old(db.docs)
    ensures r.Pass? ==> db.docs == old(db.docs)[old(db.nextId) := Stamp(submitted, user, now)]
    ensures r.Pass? ==> db.nextId == old(db.nextId) + 1
  {
    if fault {
      return Fail(StoreFailure);
    }
    var _ := db.Add(Stamp(submitted, user, now));
    r := Pass;
  }

  /** `fetchLikedArticlesByUser`: the articles whose `likedBy` holds the user; `[]` on a failure. */
  function FetchLikedArticlesByUser(db: Collection<Article>, userId: Id, fault: bool): (r: seq<Doc<Article>>)
    reads db
    requires db.Valid()
    ensures fault ==> r == []
    ensures forall d :: d in r <==> !fault && d.id in db.docs && db.docs[d.id] == d.data && userId in LikedBy(d.data)
    ensures Ascending(r)
  {
    if fault then [] else db.Where((a: Article) => userId in LikedBy(a))
  }

  /** `fetchArticlesByAuthor`: the articles whose owner is the user; `[]` on a failure. */
  function FetchArticlesByAuthor(db: Collection<Article>, userId: Id, fault: bool): (r: seq<Doc<Article>>)
    reads db
    requires db.Valid()
    ensures fault ==> r == []
    ensures forall d :: d in r <==> !fault && d.id in db.docs && db.docs[d.id] == d.data && d.data.userId == userId
    ensures Ascending(r)
  {
    if fault then [] else db.Where((a: Article) => a.userId == userId)
  }

  /**
   * `toggleLike`: one atomic step. An absent article or a failed transaction
   * leaves the collection as it was; otherwise only that article's `likes` and
   * `likedBy` change, and its membership in the user's liked list flips.
   */
  method ToggleLike(db: Collection<Article>, articleId: Id, userId: Id, fault: bool) returns (r: Outcome)
    requires db.Valid()
    modifies db
    ensures db.Valid() && db.nextId == old(db.nextId)
    ensures r == if fault then Fail(StoreFailure) else if articleId !in old(db.docs) then Fail(NotFound) else Pass
    ensures r.Fail? ==> db.docs == old(db.docs)
    ensures r.Pass? ==> db.docs == old(db.docs)[articleId := Toggle(old(db.docs[articleId]), userId)]
    ensures r.Pass? ==>
              (Doc(articleId, db.docs[articleId]) in FetchLikedArticlesByUser(db, userId, false)
               <==> userId !in LikedBy(old(db.docs[articleId])))
  {
    if fault {
      return Fail(StoreFailure);
    }
    if articleId !in db.docs {
      return Fail(NotFound);
    }
    db.Update(articleId, Toggle(db.docs[articleId], userId));
    r := Pass;
  }

  /** `deleteArticle`: removes the given id and nothing else; an absent id is not an error. */
  method DeleteArticle(db: Collection<Article>, id: Id, fault: bool) returns (r: Outcome)
    requires db.Valid()
    modifies db
    ensures db.Valid() && db.nextId == old(db.nextId)
    ensures r == if fault then Fail(StoreFailure) else Pass
    ensures r.Fail? ==> db.docs == old(db.docs)
    ensures r.Pass? ==> db.docs == old(db.docs) - {id}
  {
    if fault {
      return Fail(StoreFailure);
    }
    db.Delete(id);
    r := Pass;
  }

  /**
   * A like then an unlike on an article with five likes and one liker `u9`:
   * the like by `u1` adds them and counts 6, the unlike brings back 5 and `[u9]`.
   */
  lemma ScenarioLikeThenUnlike(a: Article, u1: Id, u9: Id)
    requires u1 != u9 && a.likes == Number(5) && a.likedBy == Some([u9])
    ensures Likes(Toggle(a, u1)) == 6 && u1 in LikedBy(Toggle(a, u1)) && u9 in LikedBy(Toggle(a, u1))
    ensures Likes(Toggle(Toggle(a, u1), u1)) == 5 && LikedBy(Toggle(Toggle(a, u1), u1)) == [u9]
  {
    ToggleTwice(a, u1);
  }
}
