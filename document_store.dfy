/**
 * The hosted document store as the services see it: one collection is an
 * in-memory table from document id to record, ids are handed out by the store
 * in increasing order, and a query returns the matching documents in
 * ascending id order (the store's default order when a query has no orderBy).
 * Also the result wrappers and failure kinds shared by every service.
 */
module DocumentStore {

  /** Document identifiers, assigned by the store. */
  type Id = nat

  /** Clock readings (`Timestamp.now()`), given to the operations as parameters. */
  type Time = int

  datatype Option<T> = None | Some(value: T)

  /** The failures the services raise or propagate. */
  datatype Error =
    | NotFound            // the referenced document does not exist
    | DuplicateEmail      // registration with an email that is already in use
    | InvalidCredentials  // no account has exactly this email and password
    | StoreFailure        // the store call itself failed (network, transaction gave up)

  /** The value of an operation that returns something or throws. */
  datatype Result<T> = Success(value: T) | Failure(error: Error)

  /** The value of an operation that returns nothing or throws. */
  datatype Outcome = Pass | Fail(error: Error)

  /** A fetched document, `{ id: doc.id, ...doc.data() }`. */
  datatype Doc<T> = Doc(id: Id, data: T)

  /** The ids strictly increase along `s`. */
  ghost predicate Ascending<T>(s: seq<Doc<T>>) {
    forall i, j :: 0 <= i < j < |s| ==> s[i].id < s[j].id
  }

  /** A sequence with strictly increasing ids holds each document at most once. */
  lemma {:induction false} AscendingOnce<T>(s: seq<Doc<T>>)
    requires Ascending(s)
    ensures forall x :: multiset(s)[x] <= 1
  {
    if s != [] {
      assert s == [s[0]] + s[1..];
      assert Ascending(s[1..]) by {
        forall i, j | 0 <= i < j < |s[1..]|
          ensures s[1..][i].id < s[1..][j].id
        {
          assert s[1..][i] == s[i + 1] && s[1..][j] == s[j + 1];
        }
      }
      AscendingOnce(s[1..]);
      assert s[0] !in s[1..] by {
        forall k | 0 <= k < |s[1..]|
          ensures s[1..][k] != s[0]
        {
          assert s[1..][k] == s[k + 1];
        }
      }
    }
  }

  /** The documents of `m` with an id below `n` whose record satisfies `keep`, by ascending id. */
  function Select<T(!new)>(m: map<Id, T>, keep: T -> bool, n: nat): (r: seq<Doc<T>>)
    ensures forall d :: d in r <==> d.id < n && d.id in m && m[d.id] == d.data && keep(d.data)
    ensures forall i :: 0 <= i < |r| ==> r[i].id < n
    ensures Ascending(r)
  {
    if n == 0 then []
    else
      var earlier := Select(m, keep, n - 1);
      var k := n - 1;
      if k in m && keep(m[k]) then earlier + [Doc(k, m[k])] else earlier
  }

  /** One collection of the store. */
  class Collection<T(!new)> {
    var docs: map<Id, T>
    var nextId: Id

    /** Every stored id was handed out before `nextId`. */
    ghost predicate Valid()
      reads this
    {
      forall id :: id in docs ==> id < nextId
    }

    constructor ()
      ensures Valid() && docs == map[] && nextId == 0
    {
      docs := map[];
      nextId := 0;
    }

    /** `getDocs(query(collection, where(...)))`: every stored document whose record satisfies `keep`. */
    function Where(keep: T -> bool): (r: seq<Doc<T>>)
      reads this
      requires Valid()
      ensures forall d :: d in r <==> d.id in docs && docs[d.id] == d.data && keep(d.data)
      ensures Ascending(r)
    {
      Select(docs, keep, nextId)
    }

    /** `addDoc`: stores `x` under a fresh id and returns that id. */
    method Add(x: T) returns (id: Id)
      requires Valid()
      modifies this
      ensures Valid()
      ensures id == old(nextId) && id !in old(docs) && nextId == id + 1
      ensures docs == old(docs)[id := x]
    {
      id := nextId;
      docs := docs[id := x];
      nextId := nextId + 1;
    }

    /** `transaction.update` of an existing document. */
    method Update(id: Id, x: T)
      requires Valid() && id in docs
      modifies this
      ensures Valid() && nextId == old(nextId)
      ensures docs == old(docs)[id := x]
    {
      docs := docs[id := x];
    }

    /** `deleteDoc`: removing an absent id is not an error. */
    method Delete(id: Id)
      requires Valid()
      modifies this
      ensures Valid() && nextId == old(nextId)
      ensures docs == old(docs) - {id}
    {
      docs := docs - {id};
    }
  }
}
