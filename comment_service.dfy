/**
 * The comment repository (src/services/commentService.js) over the `comments`
 * collection: append a record, and fetch one article's comments newest first.
 */
module CommentService {
  import opened DocumentStore

  /** A comment record; `user` is the author's pseudo, `avatar` their avatar URL. */
  datatype Comment = Comment(articleId: Id, user: string, avatar: string, text: string, createdAt: Time)

  /**
   * `x` comes no later than `y` in `orderBy("createdAt", "desc")`: a later
   * timestamp first, equal timestamps by descending document id.
   */
  predicate NewerOrSame(x: Doc<Comment>, y: Doc<Comment>) {
    x.data.createdAt > y.data.createdAt || (x.data.createdAt == y.data.createdAt && x.id >= y.id)
  }

  /** `s` is ordered newest first. */
  ghost predicate NewestFirst(s: seq<Doc<Comment>>) {
    forall i, j :: 0 <= i < j < |s| ==> NewerOrSame(s[i], s[j])
  }

  /** The head of a newest-first sequence is no older than anything after it. */
  lemma HeadIsNewest(s: seq<Doc<Comment>>)
    requires NewestFirst(s) && s != []
    ensures forall x :: x in s[1..] ==> NewerOrSame(s[0], x)
  {
    forall x | x in s[1..]
      ensures NewerOrSame(s[0], x)
    {
      var k :| 0 <= k < |s[1..]| && s[1..][k] == x;
      assert s[k + 1] == x;
    }
  }

  /** A document no older than every element of a newest-first sequence may go in front of it. */
  lemma PrependNewest(x: Doc<Comment>, s: seq<Doc<Comment>>)
    requires NewestFirst(s)
    requires forall k :: 0 <= k < |s| ==> NewerOrSame(x, s[k])
    ensures NewestFirst([x] + s)
  {
    forall i, j | 0 <= i < j < |[x] + s|
      ensures NewerOrSame(([x] + s)[i], ([x] + s)[j])
    {
      assert ([x] + s)[j] == s[j - 1];
      if i > 0 {
        assert ([x] + s)[i] == s[i - 1];
      }
    }
  }

  /** A head no older than `d` and than every element of `t` is no older than anything in `t` with `d` added. */
  lemma BoundedByHead(h: Doc<Comment>, d: Doc<Comment>, t: seq<Doc<Comment>>, rest: seq<Doc<Comment>>)
    requires NewerOrSame(h, d)
    requires forall x :: x in t ==> NewerOrSame(h, x)
    requires multiset(rest) == multiset(t) + multiset{d}
    ensures forall k :: 0 <= k < |rest| ==> NewerOrSame(h, rest[k])
  {
    forall k | 0 <= k < |rest|
      ensures NewerOrSame(h, rest[k])
    {
      assert rest[k] in multiset(rest);
    }
  }

  /** Puts `d` into the newest-first sequence `s` at its place. */
  function InsertByDate(d: Doc<Comment>, s: seq<Doc<Comment>>): (r: seq<Doc<Comment>>)
    requires NewestFirst(s)
    ensures NewestFirst(r)
    ensures multiset(r) == multiset(s) + multiset{d}
  {
    if s == [] || NewerOrSame(d, s[0]) then
      PrependNewest(d, s);
      [d] + s
    else
      var rest := InsertByDate(d, s[1..]);
      assert s == [s[0]] + s[1..];
      HeadIsNewest(s);
      BoundedByHead(s[0], d, s[1..], rest);
      PrependNewest(s[0], rest);
      [s[0]] + rest
  }

  /** The query's ordering applied to `s`: the same documents, newest first. */
  function SortNewestFirst(s: seq<Doc<Comment>>): (r: seq<Doc<Comment>>)
    ensures NewestFirst(r)
    ensures multiset(r) == multiset(s)
  {
    if s == [] then []
    else
      assert s == [s[0]] + s[1..];
      InsertByDate(s[0], SortNewestFirst(s[1..]))
  }

  /** Two equal entries at different positions make an element occur at least twice. */
  lemma TwiceCounted(r: seq<Doc<Comment>>, i: nat, j: nat)
    requires i < j < |r|
    ensures r[i] == r[j] ==> multiset(r)[r[i]] >= 2
  {
    assert r == r[..j] + r[j..];
    assert r[i] == r[..j][i];
    assert r[j] == r[j..][0];
  }

  /**
   * A rearrangement of a sequence where every document occurs at most once
   * and no two documents share an id has no two entries with the same id.
   */
  lemma DistinctIds(r: seq<Doc<Comment>>, hits: seq<Doc<Comment>>)
    requires multiset(r) == multiset(hits)
    requires forall x :: multiset(hits)[x] <= 1
    requires forall d, e :: d in hits && e in hits && d.id == e.id ==> d == e
    ensures forall i, j :: 0 <= i < j < |r| ==> r[i].id != r[j].id
  {
    forall i, j | 0 <= i < j < |r|
      ensures r[i].id != r[j].id
    {
      assert r[i] in multiset(hits) && r[j] in multiset(hits);
      TwiceCounted(r, i, j);
    }
  }

  /** The comments of `m` below id `n` that belong to the article, each once, newest first. */
  function ArticleComments(m: map<Id, Comment>, n: nat, articleId: Id): (r: seq<Doc<Comment>>)
    ensures forall d :: d in r <==> d.id < n && d.id in m && m[d.id] == d.data && d.data.articleId == articleId
    ensures forall i, j :: 0 <= i < j < |r| ==> r[i].id != r[j].id
    ensures NewestFirst(r)
  {
    var hits := Select(m, (c: Comment) => c.articleId == articleId, n);
    var r := SortNewestFirst(hits);
    assert forall d :: d in r <==> d in multiset(hits);
    AscendingOnce(hits);
    DistinctIds(r, hits);
    r
  }

  /**
   * `fetchCommentsByArticleId`: exactly the stored comments of the article,
   * each once, newest first; `[]` when the query fails.
   */
  function FetchCommentsByArticleId(db: Collection<Comment>, articleId: Id, fault: bool): (r: seq<Doc<Comment>>)
    reads db
    requires db.Valid()
    ensures fault ==> r == []
    ensures forall d :: d in r <==> !fault && d.id in db.docs && db.docs[d.id] == d.data && d.data.articleId == articleId
    ensures forall i, j :: 0 <= i < j < |r| ==> r[i].id != r[j].id
    ensures NewestFirst(r)
  {
    if fault then [] else ArticleComments(db.docs, db.nextId, articleId)
  }

  /**
   * A newest-first sequence without repeated ids is determined by its
   * members: two such sequences with the same members are equal.
   */
  lemma {:induction false} NewestFirstUnique(r: seq<Doc<Comment>>, q: seq<Doc<Comment>>)
    requires NewestFirst(r) && NewestFirst(q)
    requires forall i, j :: 0 <= i < j < |r| ==> r[i].id != r[j].id
    requires forall i, j :: 0 <= i < j < |q| ==> q[i].id != q[j].id
    requires forall d :: d in r <==> d in q
    ensures r == q
    decreases |r|
  {
    assert r != [] ==> r[0] in q;
    assert q != [] ==> q[0] in r;
    if r != [] && q != [] {
      var k :| 0 <= k < |q| && q[k] == r[0];
      var l :| 0 <= l < |r| && r[l] == q[0];
      assert NewerOrSame(q[0], r[0]) by {
        if k > 0 {
          assert NewerOrSame(q[0], q[k]);
        }
      }
      assert l == 0 && r[0] == q[0];
      assert r == [r[0]] + r[1..] && q == [q[0]] + q[1..];
      forall d
        ensures d in r[1..] <==> d in q[1..]
      {
        if d in r[1..] {
          var i :| 0 <= i < |r[1..]| && r[1..][i] == d;
          assert r[i + 1] == d && d.id != r[0].id && r[i + 1] in r;
          var j :| 0 <= j < |q| && q[j] == d;
          assert j != 0 && q[1..][j - 1] == d;
        }
        if d in q[1..] {
          var i :| 0 <= i < |q[1..]| && q[1..][i] == d;
          assert q[i + 1] == d && d.id != q[0].id && q[i + 1] in q;
          var j :| 0 <= j < |r| && r[j] == d;
          assert j != 0 && r[1..][j - 1] == d;
        }
      }
      NewestFirstUnique(r[1..], q[1..]);
    }
  }

  /** A repeat-free newest-first sequence of three comments with increasing timestamps lists them last one first. */
  lemma ThreeInOrder(r: seq<Doc<Comment>>, c1: Comment, c2: Comment, c3: Comment)
    requires NewestFirst(r)
    requires forall i, j :: 0 <= i < j < |r| ==> r[i].id != r[j].id
    requires forall d :: d in r <==> d in [Doc(2, c3), Doc(1, c2), Doc(0, c1)]
    requires c1.createdAt < c2.createdAt < c3.createdAt
    ensures r == [Doc(2, c3), Doc(1, c2), Doc(0, c1)]
  {
    var expected := [Doc(2, c3), Doc(1, c2), Doc(0, c1)];
    assert NewestFirst(expected);
    NewestFirstUnique(r, expected);
  }

  /**
   * Three comments of one article stored under ids 0, 1 and 2 with increasing
   * timestamps come back last one first.
   */
  lemma ThreeCommentsNewestFirst(m: map<Id, Comment>, n: nat, articleId: Id, c1: Comment, c2: Comment, c3: Comment)
    requires m == map[0 := c1, 1 := c2, 2 := c3] && n == 3
    requires c1.articleId == articleId && c2.articleId == articleId && c3.articleId == articleId
    requires c1.createdAt < c2.createdAt < c3.createdAt
    ensures ArticleComments(m, n, articleId) == [Doc(2, c3), Doc(1, c2), Doc(0, c1)]
  {
    var r := ArticleComments(m, n, articleId);
    assert m[0] == c1 && m[1] == c2 && m[2] == c3;
    forall d
      ensures d in r <==> d in [Doc(2, c3), Doc(1, c2), Doc(0, c1)]
    {
      if d in r {
        assert d.id < 3 && m[d.id] == d.data;
      }
    }
    ThreeInOrder(r, c1, c2, c3);
  }

  /** In a newest-first sequence, a document strictly newer than all others comes first. */
  lemma NewestComesFirst(s: seq<Doc<Comment>>, d: Doc<Comment>)
    requires NewestFirst(s) && d in s
    requires forall e :: e in s && e != d ==> e.data.createdAt < d.data.createdAt
    ensures |s| > 0 && s[0] == d
  {
    var j :| 0 <= j < |s| && s[j] == d;
    if j > 0 {
      assert NewerOrSame(s[0], s[j]);
    }
  }

  /**
   * A comment stored under the next id with a timestamp strictly later than
   * every other comment of its article is the first one the article's fetch
   * returns.
   */
  lemma LatestCommentFirst(m: map<Id, Comment>, n: nat, c: Comment)
    requires forall id :: id in m ==> id < n
    requires forall e :: e in ArticleComments(m, n, c.articleId) ==> e.data.createdAt < c.createdAt
    ensures |ArticleComments(m[n := c], n + 1, c.articleId)| > 0
    ensures ArticleComments(m[n := c], n + 1, c.articleId)[0] == Doc(n, c)
  {
    var before := ArticleComments(m, n, c.articleId);
    var after := ArticleComments(m[n := c], n + 1, c.articleId);
    assert Doc(n, c) in after;
    forall e | e in after && e != Doc(n, c)
      ensures e.data.createdAt < c.createdAt
    {
      assert e.id != n && e.id in m && m[e.id] == e.data;
      assert e in before;
    }
    NewestComesFirst(after, Doc(n, c));
  }

  /**
   * `addComment`: stores exactly the given fields stamped with `now` under
   * the next id, which is where `LatestCommentFirst` applies; a failure adds
   * nothing.
   */
  method AddComment(db: Collection<Comment>, articleId: Id, user: string, avatar: string, text: string,
                    now: Time, fault: bool) returns (r: Outcome)
    requires db.Valid()
    modifies db
    ensures db.Valid()
    ensures r == if fault then Fail(StoreFailure) else Pass
    ensures r.Fail? ==> db.docs == old(db.docs) && db.nextId == old(db.nextId)
    ensures r.Pass? ==> old(db.nextId) !in old(db.docs)
    ensures r.Pass? ==> db.docs == old(db.docs)[old(db.nextId) := Comment(articleId, user, avatar, text, now)]
    ensures r.Pass? ==> db.nextId == old(db.nextId) + 1
  {
    if fault {
      return Fail(StoreFailure);
    }
    var _ := db.Add(Comment(articleId, user, avatar, text, now));
    r := Pass;
  }
}
